/**
 * Array partitioner: `T#::from([T; N])` cuts an array into consecutive
 * sub-arrays of declared lengths `[AN, BN, ..]`, in declaration order.
 * The conversion only builds when the lengths add up to `N`.
 */
module Partition {
  import opened Wrappers
  import opened Widths

  /** The concatenation of the parts, in order. */
  function Flatten<T>(parts: seq<seq<T>>): seq<T>
  {
    if parts == [] then [] else parts[0] + Flatten(parts[1..])
  }

  /** `T#::from(data)`: the consecutive slices of `data` of the declared lengths. */
  function Split<T>(data: seq<T>, widths: seq<nat>): (r: seq<seq<T>>)
    requires Sum(widths) == |data|
    ensures |r| == |widths|
    ensures forall i :: 0 <= i < |widths| ==> |r[i]| == widths[i]
    decreases widths
  {
    if widths == [] then []
    else [data[..widths[0]]] + Split(data[widths[0]..], widths[1..])
  }

  /** Part `i` is `data[start_i .. start_i + widths[i]]` with `start_i` the sum of the earlier lengths. */
  lemma {:induction false} SplitAt<T>(data: seq<T>, widths: seq<nat>, i: nat)
    requires Sum(widths) == |data| && i < |widths|
    ensures Offset(widths, i) + widths[i] <= |data|
    ensures Split(data, widths)[i] == data[Offset(widths, i)..Offset(widths, i) + widths[i]]
    decreases i
  {
    OffsetStep(widths, i);
    if i == 0 {
      assert widths[..0] == [];
    } else {
      var w := widths[0];
      assert Split(data, widths)[i] == Split(data[w..], widths[1..])[i - 1];
      SplitAt(data[w..], widths[1..], i - 1);
      OffsetTail(widths, i);
    }
  }

  /** The parts put back together are the whole array: nothing is lost, nothing reordered. */
  lemma {:induction false} FlattenSplit<T>(data: seq<T>, widths: seq<nat>)
    requires Sum(widths) == |data|
    ensures Flatten(Split(data, widths)) == data
    decreases widths
  {
    if widths != [] {
      var w := widths[0];
      var parts := Split(data, widths);
      assert parts[1..] == Split(data[w..], widths[1..]);
      FlattenSplit(data[w..], widths[1..]);
      assert data == data[..w] + data[w..];
    }
  }

  /** The other direction: parts of the declared lengths are recovered from their concatenation. */
  lemma {:induction false} SplitFlatten<T>(parts: seq<seq<T>>, widths: seq<nat>)
    requires |parts| == |widths|
    requires forall i :: 0 <= i < |parts| ==> |parts[i]| == widths[i]
    ensures |Flatten(parts)| == Sum(widths)
    ensures Split(Flatten(parts), widths) == parts
    decreases widths
  {
    if widths != [] {
      SplitFlatten(parts[1..], widths[1..]);
      var whole := Flatten(parts);
      assert whole == parts[0] + Flatten(parts[1..]);
      assert whole[..widths[0]] == parts[0];
      assert whole[widths[0]..] == Flatten(parts[1..]);
      assert parts == [parts[0]] + parts[1..];
    }
  }

  /**
   * The generated `From<[T; N]>` impl: the `ASSERT_EQ` guard, then for every
   * declared length a fresh default-filled array filled from `data[start..end]`
   * while the `end` cursor advances.
   */
  method SplitArray<T(0)>(data: array<T>, widths: seq<nat>) returns (parts: seq<seq<T>>)
    requires AssertEq(Sum(widths), data.Length).Some?
    ensures parts == Split(data[..], widths)
  {
    ghost var spec := Split(data[..], widths);
    var end := 0;
    parts := [];
    for k := 0 to |widths|
      invariant end == Offset(widths, k) <= data.Length
      invariant parts == spec[..k]
    {
      SplitAt(data[..], widths, k);
      OffsetStep(widths, k);
      var field := new T[widths[k]];
      var start := end;
      end := end + widths[k];
      forall j | 0 <= j < widths[k] {
        field[j] := data[start + j];
      }
      assert field[..] == spec[k];
      assert spec[..k + 1] == spec[..k] + [spec[k]];
      parts := parts + [field[..]];
    }
    assert spec[..|widths|] == spec;
  }

  /** `T2::from(['a', 'b', 'b'])` with lengths `1, 2`. */
  lemma SplitCharsExample()
    ensures Split(['a', 'b', 'b'], [1, 2]) == [['a'], ['b', 'b']]
  {
    var data := ['a', 'b', 'b'];
    assert data[..1] == ['a'] && data[1..] == ['b', 'b'];
    assert data[1..][..2] == ['b', 'b'] && data[1..][2..] == [];
  }

  /** `T3::from([1, 2, 2, 3, 3, 3, 3])` with lengths `1, 2, 4`. */
  lemma SplitBytesExample()
    ensures Split([1, 2, 2, 3, 3, 3, 3], [1, 2, 4]) == [[1], [2, 2], [3, 3, 3, 3]]
  {
    var data := [1, 2, 2, 3, 3, 3, 3];
    assert data[..1] == [1] && data[1..] == [2, 2, 3, 3, 3, 3];
    var rest := data[1..];
    assert rest[..2] == [2, 2] && rest[2..] == [3, 3, 3, 3];
    var last := rest[2..];
    assert last[..4] == last && last[4..] == [];
  }
}
