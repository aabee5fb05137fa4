/** The barcode union of a gap: occurrence counts accumulated in one dictionary
    over the left and the right chunk, then filtered by the minimal frequency.
    The dictionary is a map plus the list of its keys in insertion order
    (the iteration order of a Python dict). */
module Barcodes {
  import opened PyText

  /** `order` lists the keys of `occ`, each once, and every recorded count is positive. */
  predicate Tracks(occ: map<string, nat>, order: seq<string>)
  {
    && Distinct(order)
    && occ.Keys == (set b | b in order)
    && forall b :: b in occ ==> occ[b] > 0
  }

  /** The count of a barcode, 0 when absent. */
  function Count(occ: map<string, nat>, b: string): nat
  {
    if b in occ then occ[b] else 0
  }

  /** One call of the barcode extractor on a region: every read of the region seen with
      barcode `b` (listed in `observed`) adds one to the count of `b`; new barcodes are
      appended to the key order. */
  method ExtractBarcodes(occ: map<string, nat>, order: seq<string>, observed: seq<string>)
    returns (occ': map<string, nat>, order': seq<string>)
    requires Tracks(occ, order)
    ensures Tracks(occ', order')
    ensures forall b :: Count(occ', b) == Count(occ, b) + multiset(observed)[b]
    ensures |order| <= |order'| && order'[..|order|] == order
  {
    occ', order' := occ, order;
    var i := 0;
    while i < |observed|
      invariant 0 <= i <= |observed|
      invariant Tracks(occ', order')
      invariant forall b :: Count(occ', b) == Count(occ, b) + multiset(observed[..i])[b]
      invariant |order| <= |order'| && order'[..|order|] == order
    {
      var b := observed[i];
      assert observed[..i + 1] == observed[..i] + [b];
      ghost var before := order';
      occ', order' := Tally(occ', order', b);
      assert order'[..|order|] == before[..|order|];
      i := i + 1;
    }
    assert observed[..i] == observed;
  }

  /** Counting one more read with barcode `b`. */
  method Tally(occ: map<string, nat>, order: seq<string>, b: string)
    returns (occ': map<string, nat>, order': seq<string>)
    requires Tracks(occ, order)
    ensures Tracks(occ', order')
    ensures Count(occ', b) == Count(occ, b) + 1
    ensures forall x :: x != b ==> Count(occ', x) == Count(occ, x)
    ensures |order| <= |order'| && order'[..|order|] == order
  {
    if b in occ {
      occ', order' := occ[b := occ[b] + 1], order;
    } else {
      assert b !in order;
      occ', order' := occ[b := 1], order + [b];
    }
  }

  /** The barcodes whose count reaches `freq`, in key order. */
  function KeepFrequent(occ: map<string, nat>, order: seq<string>, freq: int): seq<string>
    requires forall b :: b in order ==> b in occ
  {
    if order == [] then []
    else
      var last := order[|order| - 1];
      KeepFrequent(occ, order[..|order| - 1], freq) + (if occ[last] >= freq then [last] else [])
  }

  /** A key is kept iff its count reaches the frequency, and is kept once. */
  lemma {:induction false} KeepFrequentMeaning(occ: map<string, nat>, order: seq<string>, freq: int)
    requires Distinct(order) && forall b :: b in order ==> b in occ
    ensures Distinct(KeepFrequent(occ, order, freq))
    ensures forall b :: b in KeepFrequent(occ, order, freq) <==> b in order && occ[b] >= freq
  {
    if order != [] {
      var init := order[..|order| - 1];
      var last := order[|order| - 1];
      assert forall b :: b in order <==> b in init || b == last;
      KeepFrequentMeaning(occ, init, freq);
      assert last !in init;
    }
  }

  /** The filtering loop over the dictionary. */
  method FilterUnion(occ: map<string, nat>, order: seq<string>, freq: int) returns (union: seq<string>)
    requires Tracks(occ, order)
    ensures union == KeepFrequent(occ, order, freq)
  {
    union := [];
    var i := 0;
    while i < |order|
      invariant 0 <= i <= |order|
      invariant union == KeepFrequent(occ, order[..i], freq)
    {
      assert order[..i + 1][..i] == order[..i];
      if occ[order[i]] >= freq {
        union := union + [order[i]];
      }
      i := i + 1;
    }
    assert order[..i] == order;
  }

  /** A sequence without repetitions has as many distinct elements as it is long. */
  lemma {:induction false} DistinctCard<T>(s: seq<T>)
    requires Distinct(s)
    ensures |set x | x in s| == |s|
  {
    if s != [] {
      var init := s[..|s| - 1];
      DistinctCard(init);
      assert (set x | x in s) == (set x | x in init) + {s[|s| - 1]};
      assert s[|s| - 1] !in init;
    }
  }

  /** The barcodes seen at least `freq` times among the reads of both regions. */
  ghost function Frequent(observed: seq<string>, freq: int): set<string>
  {
    set b | b in observed && multiset(observed)[b] >= freq
  }

  /** Filtering a dictionary that holds the counts of `observed` keeps exactly its frequent barcodes, once each. */
  lemma {:induction false} FilterCountsMeaning(occ: map<string, nat>, order: seq<string>, observed: seq<string>, freq: int)
    requires Tracks(occ, order)
    requires forall b :: Count(occ, b) == multiset(observed)[b]
    ensures Distinct(KeepFrequent(occ, order, freq))
    ensures forall b :: b in KeepFrequent(occ, order, freq) <==> b in Frequent(observed, freq)
    ensures |KeepFrequent(occ, order, freq)| == |Frequent(observed, freq)|
  {
    var kept := KeepFrequent(occ, order, freq);
    assert forall b :: b in order ==> b in occ;
    KeepFrequentMeaning(occ, order, freq);
    forall b ensures b in kept <==> b in Frequent(observed, freq) {
      assert Count(occ, b) == multiset(observed)[b];
      assert b in order <==> b in occ;
    }
    DistinctCard(kept);
    assert (set b | b in kept) == Frequent(observed, freq);
  }

  /** The union of the two regions' barcodes: an empty dictionary filled from the left
      and then the right region, filtered by frequency. A barcode is listed iff its
      combined count reaches `freq`, at most once, so the number of barcodes in the
      summary is the number of frequent barcodes. */
  method BarcodeUnion(leftObserved: seq<string>, rightObserved: seq<string>, freq: int) returns (union: seq<string>)
    ensures Distinct(union)
    ensures forall b :: b in union <==> b in leftObserved + rightObserved && multiset(leftObserved + rightObserved)[b] >= freq
    ensures |union| == |Frequent(leftObserved + rightObserved, freq)|
  {
    var occ: map<string, nat> := map[];
    var order: seq<string> := [];
    occ, order := ExtractBarcodes(occ, order, leftObserved);
    occ, order := ExtractBarcodes(occ, order, rightObserved);
    union := FilterUnion(occ, order, freq);
    assert multiset(leftObserved + rightObserved) == multiset(leftObserved) + multiset(rightObserved);
    FilterCountsMeaning(occ, order, leftObserved + rightObserved, freq);
  }

  /** One row of the union summary table. */
  datatype UnionSummary = UnionSummary(
    gapId: string, leftScaffold: string, rightScaffold: string,
    gapSize: int, chunkSize: int, nbBarcodes: nat, nbReads: real)

  /** The number of reads reported for a FASTQ file of `lines` lines (Python 3 true division by 4). */
  function ReadCount(lines: nat): (r: real)
    ensures r * 4.0 == lines as real
    ensures r >= 0.0
  {
    lines as real / 4.0
  }
}
