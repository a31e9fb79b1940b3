/**
 * The tracking table `std::vector<memblock_header*> _memblocks`: a sequence
 * of header addresses in insertion order, with the erase of one entry and
 * the sum of the requested sizes it accounts for.
 */
module Tracking {
  import opened Bytes
  import opened Layout
  import opened Validator

  /** No header is registered twice. */
  predicate Distinct(s: seq<uint64>)
  {
    s == [] || (s[0] !in s[1..] && Distinct(s[1..]))
  }

  /** Registering a header that is not yet listed keeps the table free of duplicates. */
  lemma {:induction false} DistinctAppend(s: seq<uint64>, x: uint64)
    requires Distinct(s) && x !in s
    ensures Distinct(s + [x])
  {
    if s != [] {
      assert (s + [x])[1..] == s[1..] + [x];
      DistinctAppend(s[1..], x);
    }
  }

  /** The table after erasing the (first) entry equal to `x`; the others keep their order. */
  function Remove(s: seq<uint64>, x: uint64): (r: seq<uint64>)
    ensures |r| == if x in s then |s| - 1 else |s|
    ensures forall y :: y in r ==> y in s
    ensures forall y :: y in s && y != x ==> y in r
    ensures Distinct(s) ==> Distinct(r) && x !in r
  {
    if s == [] then []
    else if s[0] == x then s[1..]
    else
      var rest := Remove(s[1..], x);
      assert ([s[0]] + rest)[1..] == rest;
      [s[0]] + rest
  }

  /** Erasing the entry at a found index is removing its value. */
  lemma {:induction false} RemoveAt(s: seq<uint64>, i: nat)
    requires i < |s| && Distinct(s)
    ensures Remove(s, s[i]) == s[..i] + s[i + 1..]
  {
    if i == 0 {
      assert s[..i] + s[i + 1..] == s[1..];
    } else {
      var x := s[i];
      assert s[1..][i - 1] == x;
      assert s[0] != x;
      RemoveAt(s[1..], i - 1);
      assert s[1..][..i - 1] == s[1..i];
      assert s[1..][i..] == s[i + 1..];
      calc {
        Remove(s, x);
        [s[0]] + Remove(s[1..], x);
        [s[0]] + (s[1..i] + s[i + 1..]);
        { assert s[..i] == [s[0]] + s[1..i]; }
        s[..i] + s[i + 1..];
      }
    }
  }

  /** Erasing an older entry does not disturb one registered after it. */
  lemma {:induction false} RemoveAppend(s: seq<uint64>, x: uint64, y: uint64)
    requires x != y
    ensures Remove(s + [y], x) == Remove(s, x) + [y]
  {
    if s == [] {
      assert Remove([y], x) == [y] + Remove([], x);
    } else if s[0] == x {
      assert (s + [y])[1..] == s[1..] + [y];
    } else {
      assert (s + [y])[1..] == s[1..] + [y];
      RemoveAppend(s[1..], x, y);
    }
  }

  /** Erasing the entry just registered gives back the table as it was. */
  lemma {:induction false} RemoveLast(s: seq<uint64>, x: uint64)
    requires x !in s
    ensures Remove(s + [x], x) == s
  {
    if s == [] {
      assert [x][1..] == [];
    } else {
      assert (s + [x])[1..] == s[1..] + [x];
      RemoveLast(s[1..], x);
    }
  }

  /** Storing one block and releasing another, in either order, leaves the same blocks. */
  lemma EraseAfterStore(heap: map<uint64, seq<byte>>, block: uint64, raw: seq<byte>, gone: uint64)
    requires block != gone
    ensures heap[block := raw] - {gone} == (heap - {gone})[block := raw]
  {
  }

  /** The sum of the requested_size fields of the listed headers. */
  function SumRequested(s: seq<uint64>, heap: map<uint64, seq<byte>>): nat
    requires Readable(s, heap)
  {
    if s == [] then 0 else RequestedSize(heap[s[0]]) + SumRequested(s[1..], heap)
  }

  /** Changing memory anywhere but in the listed requested_size fields leaves the sum alone. */
  lemma {:induction false} SumRequestedFrame(s: seq<uint64>, heap: map<uint64, seq<byte>>, heap': map<uint64, seq<byte>>)
    requires Readable(s, heap) && Readable(s, heap')
    requires forall b :: b in s ==> RequestedSize(heap'[b]) == RequestedSize(heap[b])
    ensures SumRequested(s, heap') == SumRequested(s, heap)
  {
    if s != [] {
      SumRequestedFrame(s[1..], heap, heap');
    }
  }

  /** Registering a header adds its requested size. */
  lemma {:induction false} SumRequestedAppend(s: seq<uint64>, heap: map<uint64, seq<byte>>, b: uint64)
    requires Readable(s + [b], heap)
    ensures SumRequested(s + [b], heap) == SumRequested(s, heap) + RequestedSize(heap[b])
  {
    if s != [] {
      assert (s + [b])[1..] == s[1..] + [b];
      SumRequestedAppend(s[1..], heap, b);
    } else {
      assert (s + [b])[1..] == [];
    }
  }

  /** Erasing a header subtracts its requested size. */
  lemma {:induction false} SumRequestedRemove(s: seq<uint64>, heap: map<uint64, seq<byte>>, x: uint64)
    requires Readable(s, heap) && Distinct(s) && x in s
    ensures SumRequested(Remove(s, x), heap) + RequestedSize(heap[x]) == SumRequested(s, heap)
  {
    if s[0] != x {
      SumRequestedRemove(s[1..], heap, x);
      assert Remove(s, x)[1..] == Remove(s[1..], x);
    }
  }
}
