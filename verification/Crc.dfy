/**
  The checksum over downloaded data.  calclib/crc32.h shows only the interface, so the initial
  value and the step for one byte are parameters; nothing below depends on the polynomial.
*/
module Crc {

  datatype Crc32 = Crc32(init: bv32, step: (bv32, bv8) -> bv32)
  {
    function Update(crc: bv32, data: seq<bv8>): bv32
      decreases |data|
    {
      if data == [] then crc else Update(step(crc, data[0]), data[1..])
    }

    function Calc(data: seq<bv8>): bv32 {
      Update(init, data)
    }

    /** Feeding data in pieces is the same as feeding it at once. */
    lemma {:induction false} UpdateConcat(crc: bv32, a: seq<bv8>, b: seq<bv8>)
      ensures Update(Update(crc, a), b) == Update(crc, a + b)
      decreases |a|
    {
      if a == [] {
        assert a + b == b;
      } else {
        UpdateConcat(step(crc, a[0]), a[1..], b);
        assert (a + b)[1..] == a[1..] + b;
      }
    }

    /** One more byte is one more step. */
    lemma UpdateByte(crc: bv32, data: seq<bv8>, b: bv8)
      ensures Update(crc, data + [b]) == step(Update(crc, data), b)
    {
      UpdateConcat(crc, data, [b]);
      assert [b][1..] == [] && Update(step(Update(crc, data), b), []) == step(Update(crc, data), b);
    }

    /** The step loses nothing of the checksum so far, and tells any two bytes apart. */
    ghost predicate Injective() {
      && (forall c: bv32, d: bv32, b: bv8 :: step(c, b) == step(d, b) ==> c == d)
      && (forall c: bv32, a: bv8, b: bv8 :: step(c, a) == step(c, b) ==> a == b)
    }

    lemma StepApart(c: bv32, d: bv32, b: bv8)
      requires Injective() && c != d
      ensures step(c, b) != step(d, b)
    {
    }

    /** Different checksums stay different over the same data. */
    lemma {:induction false} UpdateKeepsApart(c: bv32, d: bv32, data: seq<bv8>)
      requires Injective() && c != d
      ensures Update(c, data) != Update(d, data)
      decreases |data|
    {
      if data != [] {
        StepApart(c, d, data[0]);
        UpdateKeepsApart(step(c, data[0]), step(d, data[0]), data[1..]);
      }
    }

    /** Data that differs in exactly one byte has a different checksum. */
    lemma OneByteTells(a: seq<bv8>, b: seq<bv8>, k: nat)
      requires Injective() && k < |a| == |b| && a[k] != b[k]
      requires forall i :: 0 <= i < |a| && i != k ==> a[i] == b[i]
      ensures Calc(a) != Calc(b)
    {
      var head, tail := a[..k], a[k + 1..];
      assert a == head + [a[k]] + tail && b == head + [b[k]] + tail;
      UpdateByte(init, head, a[k]);
      UpdateByte(init, head, b[k]);
      UpdateConcat(init, head + [a[k]], tail);
      UpdateConcat(init, head + [b[k]], tail);
      UpdateKeepsApart(Calc(head + [a[k]]), Calc(head + [b[k]]), tail);
    }
  }
}
