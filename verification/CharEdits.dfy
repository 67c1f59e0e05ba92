/**
 Edits of a text by character and the same edits of its UTF-8 bytes: encoding
 commutes with the meaning of a batch.
 */
module CharEdits {
  import opened Seqs
  import opened Utf8
  import opened TextEdits
  import P = Positions

  /** Byte offset of the character with index `k`. */
  function At(src: string, k: nat): nat
    requires k <= |src|
  {
    ByteLen(src[..k])
  }

  function OnBytes(src: string, edits: seq<Edit<char>>): (r: seq<Edit<byte>>)
    requires InBounds(|src|, edits)
    ensures |r| == |edits|
    ensures forall i :: 0 <= i < |r| ==>
      r[i] == Edit(At(src, edits[i].start), At(src, edits[i].end), Encode(edits[i].text))
  {
    if edits == [] then []
    else [Edit(At(src, edits[0].start), At(src, edits[0].end), Encode(edits[0].text))] + OnBytes(src, edits[1..])
  }

  /** Offsets grow strictly, each character taking its own width. */
  lemma AtGrows(src: string, j: nat, k: nat)
    requires j < k <= |src|
    ensures At(src, j) + Len8(src[j]) == At(src, j + 1) <= At(src, k)
  {
    P.PrefixStep(src, j);
    P.ByteLenMonotone(src, j + 1, k);
  }

  lemma AtOrder(src: string, j: nat, k: nat)
    requires j <= |src| && k <= |src|
    ensures At(src, j) <= At(src, k) <==> j <= k
  {
    if j < k { AtGrows(src, j, k); }
    if k < j { AtGrows(src, k, j); }
  }

  lemma {:induction false} InsertedOnBytes(src: string, edits: seq<Edit<char>>, k: nat)
    requires InBounds(|src|, edits) && k <= |src|
    ensures InsertedAt(OnBytes(src, edits), At(src, k)) == Encode(InsertedAt(edits, k))
  {
    if edits == [] {
    } else {
      InsertedOnBytes(src, edits[1..], k);
      AtOrder(src, edits[0].start, k);
      AtOrder(src, k, edits[0].start);
      var own := if edits[0].start == k then edits[0].text else [];
      EncodeConcat(own, InsertedAt(edits[1..], k));
    }
  }

  /** No edit starts inside a character. */
  lemma NothingInside(src: string, edits: seq<Edit<char>>, k: nat, q: nat)
    requires InBounds(|src|, edits) && k < |src| && At(src, k) < q < At(src, k + 1)
    ensures InsertedAt(OnBytes(src, edits), q) == []
  {
    var r := OnBytes(src, edits);
    forall i | 0 <= i < |r| ensures r[i].start != q {
      AtOrder(src, edits[i].start, k);
      AtOrder(src, k + 1, edits[i].start);
    }
    NothingInserted(r, q);
  }

  /** Inside a character every offset is on the same side of the others. */
  lemma NotBefore(src: string, j: nat, k: nat, q: nat)
    requires j <= |src| && k < |src| && At(src, k) <= q < At(src, k + 1)
    ensures At(src, j) <= q <==> j <= k
  {
    AtOrder(src, j, k);
    AtOrder(src, k + 1, j);
  }

  /** A character is replaced as a whole or not at all. */
  lemma CoveredOnBytes(src: string, edits: seq<Edit<char>>, k: nat, q: nat)
    requires InBounds(|src|, edits) && k < |src| && At(src, k) <= q < At(src, k + 1)
    ensures Covered(OnBytes(src, edits), q) <==> Covered(edits, k)
  {
    var r := OnBytes(src, edits);
    forall i | 0 <= i < |r| ensures r[i].start <= q < r[i].end <==> edits[i].start <= k < edits[i].end {
      NotBefore(src, edits[i].start, k, q);
      NotBefore(src, edits[i].end, k, q);
    }
    if Covered(r, q) {
      var i :| 0 <= i < |r| && r[i].start <= q < r[i].end;
      assert edits[i].start <= k < edits[i].end;
    }
    if Covered(edits, k) {
      var i :| 0 <= i < |edits| && edits[i].start <= k < edits[i].end;
      assert r[i].start <= q < r[i].end;
    }
  }

  lemma EncodedChar(src: string, k: nat)
    requires k < |src|
    ensures At(src, k) < At(src, k + 1) <= |Encode(src)|
    ensures Encode(src)[At(src, k)..At(src, k + 1)] == EncodeChar(src[k])
  {
    AtGrows(src, k, k + 1);
    PrefixIsBoundary(src, k);
    PrefixIsBoundary(src, k + 1);
    assert src[..k + 1] == src[..k] + [src[k]];
    EncodeConcat(src[..k], [src[k]]);
    assert [src[k]][1..] == [] && Encode([src[k]]) == EncodeChar(src[k]) + Encode([]);
    EncodedLength(src[..k]);
    DropHead(Encode(src[..k]), EncodeChar(src[k]));
    var bs := Encode(src);
    assert bs[..At(src, k + 1)][At(src, k)..] == bs[At(src, k)..At(src, k + 1)];
  }

  /** The bytes of one character are all kept or all replaced. */
  lemma {:induction false} KeptOnBytes(src: string, edits: seq<Edit<char>>, k: nat, q: nat)
    requires InBounds(|src|, edits) && k < |src| && At(src, k) <= q < At(src, k + 1) <= |Encode(src)|
    ensures KeptFrom(Encode(src), OnBytes(src, edits), q) ==
      (if Covered(edits, k) then [] else Encode(src)[q..At(src, k + 1)])
      + SimFrom(Encode(src), OnBytes(src, edits), At(src, k + 1))
    decreases At(src, k + 1) - q
  {
    var bs, r, next := Encode(src), OnBytes(src, edits), At(src, k + 1);
    var tail := SimFrom(bs, r, next);
    CoveredOnBytes(src, edits, k, q);
    TakeFirst(bs, q, next);
    Assoc([bs[q]], bs[q + 1..next], tail);
    if q + 1 < next {
      KeptOnBytes(src, edits, k, q + 1);
      NothingInside(src, edits, k, q + 1);
      NothingBeside(KeptFrom(bs, r, q + 1));
    } else {
      NothingBeside(tail);
    }
  }

  /** Editing the characters and encoding is encoding and editing the bytes. */
  lemma {:induction false} EncodingCommutes(src: string, edits: seq<Edit<char>>, k: nat)
    requires InBounds(|src|, edits) && k <= |src|
    ensures SimFrom(Encode(src), OnBytes(src, edits), At(src, k)) == Encode(SimFrom(src, edits, k))
    decreases |src| - k
  {
    InsertedOnBytes(src, edits, k);
    EncodeConcat(InsertedAt(edits, k), KeptFrom(src, edits, k));
    if k == |src| {
      assert src[..k] == src;
      EncodedLength(src);
    } else {
      EncodingCommutes(src, edits, k + 1);
      EncodedChar(src, k);
      KeptOnBytes(src, edits, k, At(src, k));
      KeptChar(src, edits, k);
    }
  }

  lemma KeptChar(src: string, edits: seq<Edit<char>>, k: nat)
    requires k < |src|
    ensures Encode(KeptFrom(src, edits, k)) ==
      (if Covered(edits, k) then [] else EncodeChar(src[k])) + Encode(SimFrom(src, edits, k + 1))
  {
    var rest := SimFrom(src, edits, k + 1);
    assert ([src[k]] + rest)[1..] == rest;
    NothingBeside(Encode(rest));
  }
}
