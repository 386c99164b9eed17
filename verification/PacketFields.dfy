/** Multi-byte fields inside a packed packet, and what swapping them in place does. */
module PacketFields {
  import opened Bytes

  datatype Field = Field(offset: nat, width: nat) {
    predicate Covers(k: int) {
      offset <= k < offset + width
    }

    /** The position that trades places with k. */
    function Mirror(k: int): int {
      2 * offset + width - 1 - k
    }
  }

  function SwapField(p: seq<byte>, f: Field): (q: seq<byte>)
    ensures |q| == |p|
  {
    seq(|p|, k requires 0 <= k < |p| => if f.Covers(k) && f.offset + f.width <= |p| then p[f.Mirror(k)] else p[k])
  }

  function SwapAll(p: seq<byte>, fields: seq<Field>): (q: seq<byte>)
    ensures |q| == |p|
  {
    if fields == [] then p else SwapField(SwapAll(p, fields[..|fields| - 1]), fields[|fields| - 1])
  }

  /** The fields lie inside n bytes, one after the other. */
  ghost predicate Laid(fields: seq<Field>, n: nat) {
    && (forall i :: 0 <= i < |fields| ==> fields[i].offset + fields[i].width <= n)
    && (forall i, j :: 0 <= i < j < |fields| ==> fields[i].offset + fields[i].width <= fields[j].offset)
  }

  lemma SwapAllSnoc(p: seq<byte>, fields: seq<Field>, f: Field)
    ensures SwapAll(p, fields + [f]) == SwapField(SwapAll(p, fields), f)
  {
    assert (fields + [f])[..|fields|] == fields;
  }

  /** Bytes outside every field stay. */
  lemma {:induction false} SwapAllOutside(p: seq<byte>, fields: seq<Field>, k: int)
    requires 0 <= k < |p|
    requires forall i :: 0 <= i < |fields| ==> !fields[i].Covers(k)
    ensures SwapAll(p, fields)[k] == p[k]
    decreases |fields|
  {
    if fields != [] {
      SwapAllOutside(p, fields[..|fields| - 1], k);
    }
  }

  /** Bytes inside a field are mirrored in it. */
  lemma {:induction false} SwapAllInside(p: seq<byte>, fields: seq<Field>, i: nat, k: int)
    requires Laid(fields, |p|) && i < |fields| && fields[i].Covers(k)
    ensures SwapAll(p, fields)[k] == p[fields[i].Mirror(k)]
    decreases |fields|
  {
    var last := |fields| - 1;
    if i == last {
      SwapAllOutside(p, fields[..last], fields[i].Mirror(k));
    } else {
      SwapAllInside(p, fields[..last], i, k);
    }
  }

  /** Swapping the same fields again restores every byte. */
  lemma SwapAllTwice(p: seq<byte>, fields: seq<Field>)
    requires Laid(fields, |p|)
    ensures SwapAll(SwapAll(p, fields), fields) == p
  {
    var q := SwapAll(p, fields);
    forall k | 0 <= k < |p|
      ensures SwapAll(q, fields)[k] == p[k]
    {
      if i :| 0 <= i < |fields| && fields[i].Covers(k) {
        SwapAllInside(q, fields, i, k);
        SwapAllInside(p, fields, i, fields[i].Mirror(k));
      } else {
        SwapAllOutside(q, fields, k);
        SwapAllOutside(p, fields, k);
      }
    }
  }

  // ---- what a field's bytes mean ----

  function LittleEndian(b: seq<byte>): nat
    decreases |b|
  {
    if b == [] then 0 else b[0] as nat + 256 * LittleEndian(b[1..])
  }

  function BigEndian(b: seq<byte>): nat {
    if b == [] then 0 else 256 * BigEndian(b[..|b| - 1]) + b[|b| - 1] as nat
  }

  predicate Reversed(a: seq<byte>, b: seq<byte>) {
    |a| == |b| && forall i :: 0 <= i < |a| ==> a[i] == b[|b| - 1 - i]
  }

  lemma {:induction false} ReversedValue(a: seq<byte>, b: seq<byte>)
    requires Reversed(a, b)
    ensures LittleEndian(a) == BigEndian(b)
    decreases |a|
  {
    if a != [] {
      ReversedValue(a[1..], b[..|b| - 1]);
    }
  }

  /** A swapped field reads in the other byte order as it did before in this one. */
  lemma SwappedField(p: seq<byte>, fields: seq<Field>, i: nat)
    requires Laid(fields, |p|) && i < |fields|
    ensures var o, e := fields[i].offset, fields[i].offset + fields[i].width;
            && BigEndian(SwapAll(p, fields)[o..e]) == LittleEndian(p[o..e])
            && LittleEndian(SwapAll(p, fields)[o..e]) == BigEndian(p[o..e])
  {
    SwappedBytes(p, fields, i);
    hide SwapAll;
    hide LittleEndian;
    hide BigEndian;
    var o, e := fields[i].offset, fields[i].offset + fields[i].width;
    var a, b := p[o..e], SwapAll(p, fields)[o..e];
    ReversedSymmetric(a, b);
    hide Reversed;
    ReversedValue(a, b);
    ReversedValue(b, a);
  }

  lemma ReversedSymmetric(a: seq<byte>, b: seq<byte>)
    requires Reversed(a, b)
    ensures Reversed(b, a)
  {
    forall i | 0 <= i < |b|
      ensures b[i] == a[|a| - 1 - i]
    {
      assert a[|a| - 1 - i] == b[|b| - 1 - (|a| - 1 - i)];
    }
  }

  lemma InsideWhenLaid(fields: seq<Field>, i: nat, n: nat)
    requires Laid(fields, n) && i < |fields|
    ensures fields[i].offset + fields[i].width <= n
  {
  }

  lemma SwappedBytes(p: seq<byte>, fields: seq<Field>, i: nat)
    requires Laid(fields, |p|) && i < |fields|
    ensures var o, e := fields[i].offset, fields[i].offset + fields[i].width;
            Reversed(p[o..e], SwapAll(p, fields)[o..e])
  {
    hide SwapAll;
    hide Laid;
    var o, e := fields[i].offset, fields[i].offset + fields[i].width;
    assert e <= |p| by { InsideWhenLaid(fields, i, |p|); }
    var q := SwapAll(p, fields);
    forall j | 0 <= j < e - o
      ensures p[o..e][j] == q[o..e][e - o - 1 - j]
    {
      var k := e - 1 - j;
      SwapAllInside(p, fields, i, k);
      assert fields[i].Mirror(k) == o + j;
      assert q[o..e][e - o - 1 - j] == q[k] && p[o..e][j] == p[o + j];
    }
  }

  lemma SwapFieldValue(p: seq<byte>, f: Field)
    requires f.offset + f.width <= |p|
    ensures LittleEndian(SwapField(p, f)[f.offset..f.offset + f.width]) == BigEndian(p[f.offset..f.offset + f.width])
  {
    ReversedValue(SwapField(p, f)[f.offset..f.offset + f.width], p[f.offset..f.offset + f.width]);
  }

  lemma SwapFieldElsewhere(p: seq<byte>, f: Field, lo: nat, hi: nat)
    requires lo <= hi <= |p|
    requires hi <= f.offset || f.offset + f.width <= lo
    ensures SwapField(p, f)[lo..hi] == p[lo..hi]
  {
  }
}
