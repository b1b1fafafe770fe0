/** Concatenation of a list of lists, the shape shared by groups of commits,
    split plans and chunks. */
module Seqs {

  /** `[x for part in parts for x in part]`. */
  function Flatten<T>(parts: seq<seq<T>>): (r: seq<T>)
    ensures |parts| == 0 ==> r == []
    ensures |parts| > 0 ==> parts[0] <= r
  {
    if |parts| == 0 then [] else parts[0] + Flatten(parts[1..])
  }

  lemma {:induction false} FlattenAppend<T>(a: seq<seq<T>>, b: seq<seq<T>>)
    ensures Flatten(a + b) == Flatten(a) + Flatten(b)
  {
    if |a| > 0 {
      FlattenAppend(a[1..], b);
      assert (a + b)[1..] == a[1..] + b;
    } else {
      assert a + b == b;
    }
  }

  /** An element of the concatenation comes from one of the parts, and every
      element of every part is in the concatenation. */
  lemma {:induction false} FlattenMember<T>(parts: seq<seq<T>>, x: T)
    ensures x in Flatten(parts) <==> exists g :: 0 <= g < |parts| && x in parts[g]
  {
    if |parts| > 0 {
      FlattenMember(parts[1..], x);
      if x in parts[0] {
        assert 0 < |parts|;
      }
      if exists g :: 1 <= g < |parts| && x in parts[g] {
        var g :| 1 <= g < |parts| && x in parts[g];
        assert x in parts[1..][g - 1];
      }
    }
  }

  /** The sum of the lengths of the parts. */
  function TotalLength<T>(parts: seq<seq<T>>): nat
  {
    if |parts| == 0 then 0 else |parts[0]| + TotalLength(parts[1..])
  }

  lemma {:induction false} FlattenLength<T>(parts: seq<seq<T>>)
    ensures |Flatten(parts)| == TotalLength(parts)
  {
    if |parts| > 0 {
      FlattenLength(parts[1..]);
    }
  }
}
