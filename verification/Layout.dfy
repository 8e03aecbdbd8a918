/**
  The order of an object's fields on the wire: a stable sort by descending
  element size, which aligns every element and makes the layout independent of
  how fields of different sizes are interleaved in the definition file
  (uavtalk/definitions.go).
 */
module Layout {
  import opened Schema

  /** A field whose processing is complete. */
  datatype Field = Field(name: string, kind: FieldType, elements: int, elementNames: seq<string>, options: seq<string>)
  {
    function Size(): nat {
      kind.Size()
    }
  }

  function Finished(f: FieldDefinition): Field
    requires f.typeInfo.Some?
  {
    Field(f.name, f.typeInfo.value, f.elements, f.elementNames, f.options)
  }

  lemma SizeValues(f: Field)
    ensures f.Size() in {1, 2, 4}
  {
  }

  // ------------------------------------------------------------------ the sort

  function OfSize(fields: seq<Field>, n: nat): seq<Field> {
    if |fields| == 0 then []
    else
      var (front, last) := (fields[..|fields| - 1], fields[|fields| - 1]);
      if last.Size() == n then OfSize(front, n) + [last] else OfSize(front, n)
  }

  /** All fields of size 4, then those of size 2, then those of size 1, each class in its given order. */
  function BySize(fields: seq<Field>): seq<Field> {
    OfSize(fields, 4) + OfSize(fields, 2) + OfSize(fields, 1)
  }

  predicate Descending(fields: seq<Field>) {
    forall i, j :: 0 <= i < j < |fields| ==> fields[i].Size() >= fields[j].Size()
  }

  lemma {:induction false} SizesInClass(fields: seq<Field>, n: nat, i: nat)
    requires i < |OfSize(fields, n)|
    ensures OfSize(fields, n)[i].Size() == n && OfSize(fields, n)[i] in fields
  {
    var front := fields[..|fields| - 1];
    if i < |OfSize(front, n)| {
      SizesInClass(front, n, i);
    }
  }

  lemma {:induction false} OfSizeConcat(a: seq<Field>, b: seq<Field>, n: nat)
    ensures OfSize(a + b, n) == OfSize(a, n) + OfSize(b, n)
  {
    if |b| == 0 {
      assert a + b == a;
    } else {
      assert (a + b)[..|a + b| - 1] == a + b[..|b| - 1];
      OfSizeConcat(a, b[..|b| - 1], n);
    }
  }

  lemma {:induction false} OfSizeUniform(fields: seq<Field>, m: nat, n: nat)
    requires forall i :: 0 <= i < |fields| ==> fields[i].Size() == m
    ensures OfSize(fields, n) == if m == n then fields else []
  {
    if |fields| > 0 {
      OfSizeUniform(fields[..|fields| - 1], m, n);
    }
  }

  lemma ClassOfClass(fields: seq<Field>, m: nat, n: nat)
    ensures OfSize(OfSize(fields, m), n) == if m == n then OfSize(fields, n) else []
  {
    forall i: nat | i < |OfSize(fields, m)|
      ensures OfSize(fields, m)[i].Size() == m
    {
      SizesInClass(fields, m, i);
    }
    OfSizeUniform(OfSize(fields, m), m, n);
  }

  /** The sort keeps every size class as it was, so it is stable and loses nothing. */
  lemma BySizeIsStable(fields: seq<Field>, n: nat)
    requires n in {1, 2, 4}
    ensures OfSize(BySize(fields), n) == OfSize(fields, n)
  {
    OfSizeConcat(OfSize(fields, 4) + OfSize(fields, 2), OfSize(fields, 1), n);
    OfSizeConcat(OfSize(fields, 4), OfSize(fields, 2), n);
    ClassOfClass(fields, 4, n);
    ClassOfClass(fields, 2, n);
    ClassOfClass(fields, 1, n);
  }

  lemma OfSizeSnoc(front: seq<Field>, x: Field, n: nat)
    ensures OfSize(front + [x], n) == if x.Size() == n then OfSize(front, n) + [x] else OfSize(front, n)
  {
    assert (front + [x])[..|front|] == front;
  }

  lemma {:induction false} BySizePermutes(fields: seq<Field>)
    ensures multiset(BySize(fields)) == multiset(fields)
  {
    if |fields| > 0 {
      hide OfSize, Field.Size;
      var (front, x) := (fields[..|fields| - 1], fields[|fields| - 1]);
      SizeValues(x);
      BySizePermutes(front);
      assert fields == front + [x];
      OfSizeSnoc(front, x, 4);
      OfSizeSnoc(front, x, 2);
      OfSizeSnoc(front, x, 1);
    }
  }

  lemma BySizeDescends(fields: seq<Field>)
    ensures Descending(BySize(fields))
  {
    forall n: nat, i: nat | i < |OfSize(fields, n)|
      ensures OfSize(fields, n)[i].Size() == n
    {
      SizesInClass(fields, n, i);
    }
  }

  lemma {:induction false} NoneBelow(fields: seq<Field>, m: nat, n: nat)
    requires n < m && forall i :: 0 <= i < |fields| ==> fields[i].Size() >= m
    ensures OfSize(fields, n) == []
  {
    if |fields| > 0 {
      NoneBelow(fields[..|fields| - 1], m, n);
    }
  }

  lemma BySizeSnoc(front: seq<Field>, x: Field)
    ensures var (a, b, c) := (OfSize(front, 4), OfSize(front, 2), OfSize(front, 1));
            && BySize(front) == a + b + c
            && BySize(front + [x]) == if x.Size() == 4 then a + [x] + b + c
                                      else if x.Size() == 2 then a + (b + [x]) + c
                                      else a + b + (c + [x])
  {
    hide OfSize, Field.Size;
    OfSizeSnoc(front, x, 4);
    OfSizeSnoc(front, x, 2);
    OfSizeSnoc(front, x, 1);
    SizeValues(x);
  }

  lemma SnocFour(front: seq<Field>, x: Field)
    requires x.Size() == 4 && BySize(front) == front && forall i :: 0 <= i < |front| ==> front[i].Size() >= 4
    ensures BySize(front + [x]) == front + [x]
  {
    NoneBelow(front, 4, 2);
    NoneBelow(front, 4, 1);
    hide OfSize, BySize, Field.Size;
    BySizeSnoc(front, x);
    SeqRight(OfSize(front, 4), [], [x]);
  }

  lemma SnocTwo(front: seq<Field>, x: Field)
    requires x.Size() == 2 && BySize(front) == front && forall i :: 0 <= i < |front| ==> front[i].Size() >= 2
    ensures BySize(front + [x]) == front + [x]
  {
    NoneBelow(front, 2, 1);
    hide OfSize, BySize, Field.Size;
    BySizeSnoc(front, x);
    SeqRight(OfSize(front, 4), OfSize(front, 2), [x]);
  }

  lemma SnocOne(front: seq<Field>, x: Field)
    requires x.Size() == 1 && BySize(front) == front
    ensures BySize(front + [x]) == front + [x]
  {
    hide OfSize, BySize, Field.Size;
    BySizeSnoc(front, x);
    var (a, b, c) := (OfSize(front, 4), OfSize(front, 2), OfSize(front, 1));
    assert a + b + (c + [x]) == (a + b + c) + [x];
  }

  lemma SeqRight(a: seq<Field>, b: seq<Field>, x: seq<Field>)
    ensures a + (b + x) + [] == (a + b + []) + x
    ensures b == [] ==> a + x + [] + [] == (a + [] + []) + x
  {
  }

  lemma {:induction false} DescendingIsSorted(fields: seq<Field>)
    requires Descending(fields)
    ensures BySize(fields) == fields
  {
    if |fields| > 0 {
      hide OfSize, BySize, Field.Size;
      var (front, x) := (fields[..|fields| - 1], fields[|fields| - 1]);
      DescendingIsSorted(front);
      assert fields == front + [x];
      SizeValues(x);
      if x.Size() == 4 {
        SnocFour(front, x);
      } else if x.Size() == 2 {
        SnocTwo(front, x);
      } else {
        SnocOne(front, x);
      }
    }
  }

  /** Any stable sort by descending size gives this one order. */
  lemma StableSortUnique(fields: seq<Field>, sorted: seq<Field>)
    requires Descending(sorted)
    requires forall n :: n in {1, 2, 4} ==> OfSize(sorted, n) == OfSize(fields, n)
    ensures sorted == BySize(fields)
  {
    DescendingIsSorted(sorted);
    assert 1 in {1, 2, 4} && 2 in {1, 2, 4} && 4 in {1, 2, 4};
  }

  function Inserted(s: seq<Field>, x: Field, j: nat): (r: seq<Field>)
    requires j <= |s|
    ensures |r| == |s| + 1
  {
    s[..j] + [x] + s[j..]
  }

  lemma ClassAfterInsertion(s: seq<Field>, x: Field, j: nat, n: nat)
    requires j <= |s| && forall k :: j <= k < |s| ==> s[k].Size() < x.Size()
    ensures OfSize(Inserted(s, x, j), n) == OfSize(s + [x], n)
  {
    hide OfSize, Field.Size;
    OfSizeConcat(s[..j] + [x], s[j..], n);
    OfSizeSnoc(s[..j], x, n);
    OfSizeSnoc(s, x, n);
    OfSizeConcat(s[..j], s[j..], n);
    assert s == s[..j] + s[j..];
    if n == x.Size() {
      NoneOfSize(s[j..], n);
    }
  }

  /** A field lands behind the fields that are not smaller. */
  lemma InsertedBySize(front: seq<Field>, x: Field, j: nat)
    requires j <= |BySize(front)|
    requires forall k :: 0 <= k < j ==> BySize(front)[k].Size() >= x.Size()
    requires forall k :: j <= k < |BySize(front)| ==> BySize(front)[k].Size() < x.Size()
    ensures BySize(front + [x]) == Inserted(BySize(front), x, j)
  {
    var s := BySize(front);
    var t := Inserted(s, x, j);
    BySizeDescends(front);
    forall n | n in {1, 2, 4}
      ensures OfSize(t, n) == OfSize(front + [x], n)
    {
      hide OfSize, BySize;
      ClassAfterInsertion(s, x, j, n);
      OfSizeSnoc(s, x, n);
      OfSizeSnoc(front, x, n);
      BySizeIsStable(front, n);
    }
    hide OfSize, BySize;
    assert Descending(t);
    StableSortUnique(front + [x], t);
  }

  lemma {:induction false} NoneOfSize(fields: seq<Field>, n: nat)
    requires forall i :: 0 <= i < |fields| ==> fields[i].Size() != n
    ensures OfSize(fields, n) == []
  {
    if |fields| > 0 {
      NoneOfSize(fields[..|fields| - 1], n);
    }
  }

  lemma SwapDown(s: seq<Field>, x: Field, j: nat, rest: seq<Field>)
    requires 0 < j <= |s|
    ensures var t := Inserted(s, x, j) + rest;
            && t[j] == x && t[j - 1] == s[j - 1]
            && t[j := t[j - 1]][j - 1 := x] == Inserted(s, x, j - 1) + rest
  {
  }

  method Swap(fields: array<Field>, i: nat, j: nat)
    requires i < fields.Length && j < fields.Length
    modifies fields
    ensures fields[..] == old(fields[..])[i := old(fields[j])][j := old(fields[i])]
  {
    fields[i], fields[j] := fields[j], fields[i];
  }

  /** Moves field `i` down by adjacent swaps until the field before it is not smaller. */
  method SwapIntoPlace(fields: array<Field>, i: nat, ghost front: seq<Field>)
    requires i < fields.Length && fields[..i] == BySize(front)
    modifies fields
    ensures fields[..] == BySize(front + [old(fields[i])]) + old(fields[i + 1..])
  {
    hide BySize, OfSize, Field.Size, Inserted;
    ghost var s, x, rest := fields[..i], fields[i], fields[i + 1..];
    var j := i;
    InsertedLast(fields[..], i);
    while j > 0 && fields[j].Size() > fields[j - 1].Size()
      invariant 0 <= j <= i == |s|
      invariant fields[..] == Inserted(s, x, j) + rest
      invariant forall k :: j <= k < i ==> s[k].Size() < x.Size()
    {
      SwapDown(s, x, j, rest);
      assert fields[j] == fields[..][j] && fields[j - 1] == fields[..][j - 1];
      Swap(fields, j, j - 1);
      j := j - 1;
    }
    if j > 0 {
      SwapDown(s, x, j, rest);
      assert fields[j] == fields[..][j] && fields[j - 1] == fields[..][j - 1];
    }
    BySizeDescends(front);
    InsertedBySize(front, x, j);
  }

  lemma InsertedLast(t: seq<Field>, i: nat)
    requires i < |t|
    ensures t == Inserted(t[..i], t[i], i) + t[i + 1..]
  {
  }

  /** Insertion sort, as sort.Stable orders a block through Less and Swap. */
  method SortStable(fields: array<Field>)
    modifies fields
    ensures fields[..] == BySize(old(fields[..]))
  {
    EmptyBySize();
    hide BySize, OfSize;
    ghost var raw := fields[..];
    for i := 0 to fields.Length
      invariant fields[..i] == BySize(raw[..i])
      invariant fields[i..] == raw[i..]
    {
      assert fields[i] == fields[i..][0] == raw[i] && fields[i + 1..] == fields[i..][1..] == raw[i + 1..];
      assert raw[..i + 1] == raw[..i] + [raw[i]];
      SwapIntoPlace(fields, i, raw[..i]);
      BySizeLength(raw[..i + 1]);
    }
    assert raw[..fields.Length] == raw && fields[..fields.Length] == fields[..];
  }

  lemma BySizeLength(fields: seq<Field>)
    ensures |BySize(fields)| == |fields|
  {
    hide BySize;
    BySizePermutes(fields);
    assert |multiset(BySize(fields))| == |multiset(fields)|;
  }

  lemma EmptyBySize()
    ensures BySize([]) == []
  {
  }

  // ------------------------------------------------------------ offsets

  /** The size in bytes of all the fields. */
  function ByteLength(fields: seq<Field>): int {
    if |fields| == 0 then 0
    else ByteLength(fields[..|fields| - 1]) + fields[|fields| - 1].Size() * fields[|fields| - 1].elements
  }

  method ComputeByteLength(fields: seq<Field>) returns (length: int)
    ensures length == ByteLength(fields)
  {
    length := 0;
    for i := 0 to |fields|
      invariant length == ByteLength(fields[..i])
    {
      assert fields[..i + 1][..i] == fields[..i];
      length := length + fields[i].Size() * fields[i].elements;
    }
    assert fields[..|fields|] == fields;
  }

  /** The offset is a multiple of the size, which is 1, 2 or 4. */
  predicate Aligned(n: int, size: nat) {
    if size == 4 then n % 4 == 0 else if size == 2 then n % 2 == 0 else true
  }

  lemma AlignedSum(a: int, b: int, d: nat)
    requires Aligned(a, d) && Aligned(b, d)
    ensures Aligned(a + b, d)
  {
  }

  lemma AlignedProduct(size: nat, count: int, d: nat)
    requires d in {1, 2, 4} && size in {1, 2, 4} && size >= d
    ensures Aligned(size * count, d)
  {
    if size == 4 {
      assert size * count == 4 * count;
    } else if size == 2 {
      assert size * count == 2 * count;
    }
  }

  lemma AlignedIsDivisible(n: int, d: nat)
    requires d in {1, 2, 4} && Aligned(n, d)
    ensures n % d == 0
  {
    if d == 4 {} else if d == 2 {} else {}
  }

  lemma {:induction false} LengthAligned(fields: seq<Field>, d: nat)
    requires d in {1, 2, 4} && forall i :: 0 <= i < |fields| ==> fields[i].Size() >= d
    ensures Aligned(ByteLength(fields), d)
  {
    if |fields| > 0 {
      hide Field.Size, Aligned;
      var (front, last) := (fields[..|fields| - 1], fields[|fields| - 1]);
      var product := last.Size() * last.elements;
      assert ByteLength(fields) == ByteLength(front) + product;
      hide ByteLength;
      SizeValues(last);
      LengthAligned(front, d);
      AlignedProduct(last.Size(), last.elements, d);
      AlignedSum(ByteLength(front), product, d);
    }
  }

  /** In a sorted layout, element `e` of field `i` lies at a multiple of its own size. */
  lemma SortedIsAligned(fields: seq<Field>, i: nat, e: nat)
    requires i < |BySize(fields)|
    ensures var f := BySize(fields)[i];
            (ByteLength(BySize(fields)[..i]) + e * f.Size()) % f.Size() == 0
  {
    hide BySize, Field.Size, ByteLength, Aligned;
    var d := BySize(fields)[i].Size();
    var before := ByteLength(BySize(fields)[..i]);
    SizeValues(BySize(fields)[i]);
    BySizeDescends(fields);
    LengthAligned(BySize(fields)[..i], d);
    AlignedProduct(d, e, d);
    AlignedSum(before, d * e, d);
    AlignedIsDivisible(before + d * e, d);
    assert e * d == d * e;
  }
}
