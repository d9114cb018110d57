/** Writes into a byte buffer or file, in order: those that do not meet all
    survive, and every other byte is kept. */
module ByteWrites {
  import opened Words

  /** Little-endian. */
  function Le32(value: Word): (r: seq<Byte>)
    ensures |r| == 4
  {
    [ByteOf(value, 0), ByteOf(value, 1), ByteOf(value, 2), ByteOf(value, 3)]
  }

  function Zeros(count: nat): seq<Byte> {
    seq(count, _ => 0)
  }

  /** A write past the end of the file fills the gap with zeros, if it writes
      anything. */
  function Overwrite(image: seq<Byte>, at: nat, bytes: seq<Byte>): (r: seq<Byte>)
    ensures |r| == if bytes == [] || at + |bytes| <= |image| then |image| else at + |bytes|
    ensures forall i :: 0 <= i < |r| ==>
      r[i] == if at <= i < at + |bytes| then bytes[i - at] else if i < |image| then image[i] else 0
  {
    if bytes == [] then image
    else
      var filled := if at + |bytes| <= |image| then image else image + Zeros(at + |bytes| - |image|);
      filled[..at] + bytes + filled[at + |bytes|..]
  }

  datatype Write = Write(at: nat, bytes: seq<Byte>)

  function Land(image: seq<Byte>, writes: seq<Write>): seq<Byte>
    decreases |writes|
  {
    if writes == [] then image else Land(Overwrite(image, writes[0].at, writes[0].bytes), writes[1..])
  }

  lemma {:induction false} LandAppend(image: seq<Byte>, first: seq<Write>, second: seq<Write>)
    ensures Land(image, first + second) == Land(Land(image, first), second)
    decreases |first|
  {
    if first == [] {
      assert first + second == second;
    } else {
      assert (first + second)[1..] == first[1..] + second;
      LandAppend(Overwrite(image, first[0].at, first[0].bytes), first[1..], second);
    }
  }

  lemma LandThree(image: seq<Byte>, a: Write, b: Write, c: Write)
    ensures Land(image, [a, b, c])
         == Overwrite(Overwrite(Overwrite(image, a.at, a.bytes), b.at, b.bytes), c.at, c.bytes)
  {
    hide Overwrite;
    assert [a, b, c][1..] == [b, c] && [b, c][1..] == [c] && [c][1..] == [];
    var first := Overwrite(image, a.at, a.bytes);
    var second := Overwrite(first, b.at, b.bytes);
    assert Land(second, [c]) == Land(Overwrite(second, c.at, c.bytes), []);
    assert Land(first, [b, c]) == Land(second, [c]);
  }

  predicate Covers(w: Write, i: int) {
    w.at <= i < w.at + |w.bytes|
  }

  predicate Meet(w: Write, v: Write) {
    w.at < v.at + |v.bytes| && v.at < w.at + |w.bytes|
  }

  lemma {:induction false} LandKeeps(image: seq<Byte>, writes: seq<Write>, i: nat)
    requires i < |image| && forall w :: w in writes ==> !Covers(w, i)
    ensures |image| <= |Land(image, writes)| && Land(image, writes)[i] == image[i]
    decreases |writes|
  {
    if writes != [] {
      assert !Covers(writes[0], i);
      LandKeeps(Overwrite(image, writes[0].at, writes[0].bytes), writes[1..], i);
    }
  }

  predicate NoneMeets(w: Write, writes: seq<Write>) {
    forall v :: v in writes ==> !Meet(w, v)
  }

  /** No write meets a later one. */
  predicate Separate(writes: seq<Write>)
    decreases |writes|
  {
    writes == [] || (NoneMeets(writes[0], writes[1..]) && Separate(writes[1..]))
  }

  ghost predicate Holds(image: seq<Byte>, w: Write) {
    forall i :: Covers(w, i) ==> i < |image| && image[i] == w.bytes[i - w.at]
  }

  lemma {:induction false} HeldIsKept(image: seq<Byte>, w: Write, writes: seq<Write>)
    requires Holds(image, w) && NoneMeets(w, writes)
    ensures Holds(Land(image, writes), w)
  {
    forall i | Covers(w, i) ensures i < |Land(image, writes)| && Land(image, writes)[i] == w.bytes[i - w.at] {
      forall v | v in writes ensures !Covers(v, i) {
        assert !Meet(w, v);
      }
      LandKeeps(image, writes, i);
    }
  }

  /** Writes that do not meet all survive. */
  lemma {:induction false} AllHold(image: seq<Byte>, writes: seq<Write>)
    requires Separate(writes)
    ensures forall w :: w in writes ==> Holds(Land(image, writes), w)
    decreases |writes|
  {
    if writes != [] {
      var next := Overwrite(image, writes[0].at, writes[0].bytes);
      AllHold(next, writes[1..]);
      HeldIsKept(next, writes[0], writes[1..]);
      forall w | w in writes ensures Holds(Land(image, writes), w) {
        assert w == writes[0] || w in writes[1..];
      }
    }
  }

  lemma {:induction false} SeparateAppend(a: seq<Write>, b: seq<Write>)
    requires Separate(a) && Separate(b) && forall w :: w in a ==> NoneMeets(w, b)
    ensures Separate(a + b)
    decreases |a|
  {
    if a == [] {
      assert a + b == b;
    } else {
      SeparateAppend(a[1..], b);
      assert (a + b)[1..] == a[1..] + b;
      assert a[0] in a && NoneMeets(a[0], b);
      forall v | v in (a + b)[1..] ensures !Meet(a[0], v) {
        assert v in a[1..] || v in b;
      }
    }
  }

  lemma ThreeSeparate(a: Write, b: Write, c: Write)
    requires !Meet(a, b) && !Meet(a, c) && !Meet(b, c)
    ensures Separate([a, b, c])
  {
    assert [a, b, c][1..] == [b, c] && [b, c][1..] == [c] && [c][1..] == [];
    assert Separate([c]);
    assert NoneMeets(b, [c]) && Separate([b, c]);
    assert NoneMeets(a, [b, c]);
  }

  lemma HeldContent(image: seq<Byte>, w: Write, content: seq<Byte>)
    requires Holds(image, w) && content <= w.bytes && (content != [] || w.at <= |image|)
    ensures w.at + |content| <= |image| && image[w.at..w.at + |content|] == content
  {
    if content != [] {
      assert Covers(w, w.at + |content| - 1);
    }
    forall k | 0 <= k < |content| ensures w.at + k < |image| && image[w.at + k] == content[k] {
      assert Covers(w, w.at + k);
    }
  }
}
