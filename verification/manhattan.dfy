/** The non-feedback retrieval: the Manhattan distance between two images'
    size-normalised histograms, and the ranking of every other image in the
    collection's directory against a selected one. The directory listing is
    a sequence of file names and the feature extractor is a function from
    path to features. */
module Manhattan {
  import opened Common
  import opened Ranking
  import ImagePaths

  /** A pixel count; every image has at least one pixel. */
  type PixelCount = n: nat | n > 0 witness 1

  /** What an extractor returns: `(width*height, hist)`. */
  datatype Features = Features(size: PixelCount, hist: seq<nat>)

  /** Bin `j` of an image as a fraction of its size. */
  function Fraction(f: Features, j: nat): real
    requires j < |f.hist|
  {
    f.hist[j] as real / f.size as real
  }

  /** The sum of `|h1[j]/size1 - h2[j]/size2|` over the first `n` bins. */
  function BinDistance(a: Features, b: Features, n: nat): real
    requires n <= |a.hist| && n <= |b.hist|
  {
    if n == 0 then 0.0
    else BinDistance(a, b, n - 1) + Abs(Fraction(a, n - 1) - Fraction(b, n - 1))
  }

  /** The distance as the tool intends it: -1 when the two histograms differ
      in length, otherwise the sum over all bins. */
  function Distance(a: Features, b: Features): real
  {
    if |a.hist| != |b.hist| then -1.0 else BinDistance(a, b, |a.hist|)
  }

  /** `calculate_manhattan` as written: its length guard compares the two
      `(size, hist)` tuples, which always have two components, so it never
      fires; the loop then runs over the first histogram's bins and indexes
      the second, which fails when the second is shorter. */
  function DistanceAsWritten(a: Features, b: Features): Result<real>
  {
    var tupleLength1, tupleLength2 := 2, 2;
    if tupleLength1 != tupleLength2 then Ok(-1.0)
    else if |b.hist| < |a.hist| then Err(IndexError)
    else Ok(BinDistance(a, b, |a.hist|))
  }

  /** The as-written guard never reports a mismatch: histograms of different
      lengths give either an IndexError or a distance over the first
      histogram's bins, never the -1 signal. */
  lemma AsWrittenGuardNeverFires(a: Features, b: Features)
    ensures DistanceAsWritten(a, b) != Ok(-1.0)
    ensures |b.hist| < |a.hist| ==> DistanceAsWritten(a, b) == Err(IndexError)
    ensures |a.hist| < |b.hist| ==> DistanceAsWritten(a, b) == Ok(BinDistance(a, b, |a.hist|))
  {
    if |b.hist| >= |a.hist| {
      BinDistanceNonNegative(a, b, |a.hist|);
    }
  }

  /** A concrete mismatch: one bin against two gives distance 0, not -1. */
  lemma AsWrittenMismatchExample()
    ensures DistanceAsWritten(Features(1, [1]), Features(1, [1, 0])) == Ok(0.0)
    ensures Distance(Features(1, [1]), Features(1, [1, 0])) == -1.0
  {
  }

  /** On histograms of one length the guard as written and the corrected
      guard agree, on a non-negative distance. */
  lemma AsWrittenAgreesOnEqualLengths(a: Features, b: Features)
    requires |a.hist| == |b.hist|
    ensures DistanceAsWritten(a, b) == Ok(Distance(a, b))
    ensures Distance(a, b) >= 0.0
  {
    BinDistanceNonNegative(a, b, |a.hist|);
  }

  lemma {:induction false} BinDistanceNonNegative(a: Features, b: Features, n: nat)
    requires n <= |a.hist| && n <= |b.hist|
    ensures BinDistance(a, b, n) >= 0.0
  {
    if n > 0 {
      BinDistanceNonNegative(a, b, n - 1);
    }
  }

  lemma {:induction false} BinDistanceSymmetric(a: Features, b: Features, n: nat)
    requires n <= |a.hist| && n <= |b.hist|
    ensures BinDistance(a, b, n) == BinDistance(b, a, n)
  {
    if n > 0 {
      BinDistanceSymmetric(a, b, n - 1);
    }
  }

  lemma {:induction false} BinDistanceSelf(a: Features, n: nat)
    requires n <= |a.hist|
    ensures BinDistance(a, a, n) == 0.0
  {
    if n > 0 {
      BinDistanceSelf(a, n - 1);
    }
  }

  /** The corrected distance is -1 exactly on a length mismatch, and
      otherwise a non-negative, symmetric quantity that is 0 between an
      image and itself. */
  lemma DistanceProperties(a: Features, b: Features)
    ensures Distance(a, b) == -1.0 <==> |a.hist| != |b.hist|
    ensures |a.hist| == |b.hist| ==> Distance(a, b) >= 0.0
    ensures Distance(a, b) == Distance(b, a)
    ensures Distance(a, a) == 0.0
  {
    BinDistanceSelf(a, |a.hist|);
    if |a.hist| == |b.hist| {
      BinDistanceNonNegative(a, b, |a.hist|);
      BinDistanceSymmetric(a, b, |a.hist|);
    }
  }

  /** Two images whose histograms are the same fractions of their sizes
      are at distance 0. */
  lemma {:induction false} SameFractionsZeroDistance(a: Features, b: Features, n: nat)
    requires n <= |a.hist| && n <= |b.hist|
    requires forall j :: 0 <= j < n ==> Fraction(a, j) == Fraction(b, j)
    ensures BinDistance(a, b, n) == 0.0
  {
    if n > 0 {
      SameFractionsZeroDistance(a, b, n - 1);
    }
  }

  /** `calculate_manhattan` with the guard comparing the histograms. */
  method CalculateManhattan(a: Features, b: Features) returns (result: real)
    ensures result == Distance(a, b)
    ensures result == -1.0 <==> |a.hist| != |b.hist|
    ensures result >= 0.0 || result == -1.0
  {
    if |a.hist| != |b.hist| {
      return -1.0;
    }
    result := 0.0;
    var j := 0;
    while j < |a.hist|
      invariant 0 <= j <= |a.hist|
      invariant result == BinDistance(a, b, j)
    {
      result := result + Abs(a.hist[j] as real / a.size as real - b.hist[j] as real / b.size as real);
      j := j + 1;
    }
    DistanceProperties(a, b);
  }

  const ThumbsDb: string := "Thumbs.db"

  /** The files of the listing that are ranked against `selected`: all but
      `Thumbs.db` and the selected image itself. */
  predicate Ranked(name: string, selected: string)
  {
    name != ThumbsDb && ImagePaths.Prefix + name != selected
  }

  /** The `(distance, path)` entries `get_distance` collects, in listing
      order. */
  function Candidates(selected: string, listing: seq<string>, extract: string -> Features): seq<Entry>
  {
    if listing == [] then []
    else
      var rest := Candidates(selected, listing[..|listing| - 1], extract);
      var name := listing[|listing| - 1];
      var path := ImagePaths.Prefix + name;
      if Ranked(name, selected) then rest + [Entry(Distance(extract(selected), extract(path)), path)]
      else rest
  }

  /** How many listed files are ranked. */
  function RankedCount(selected: string, listing: seq<string>): nat
  {
    if listing == [] then 0
    else RankedCount(selected, listing[..|listing| - 1]) +
         (if Ranked(listing[|listing| - 1], selected) then 1 else 0)
  }

  /** An entry is collected exactly when it comes from a ranked listed file
      and carries that file's distance to the selected image; there is one
      entry per ranked file, and none for the selected image. */
  lemma {:induction false} CandidatesExactly(selected: string, listing: seq<string>, extract: string -> Features)
    ensures |Candidates(selected, listing, extract)| == RankedCount(selected, listing)
    ensures forall e :: e in Candidates(selected, listing, extract) <==>
              exists k :: 0 <= k < |listing| && Ranked(listing[k], selected) &&
                e == Entry(Distance(extract(selected), extract(ImagePaths.Prefix + listing[k])),
                           ImagePaths.Prefix + listing[k])
    ensures forall e :: e in Candidates(selected, listing, extract) ==> e.path != selected
  {
    if listing != [] {
      var init := listing[..|listing| - 1];
      CandidatesExactly(selected, init, extract);
      forall e
        ensures e in Candidates(selected, listing, extract) <==>
          exists k :: 0 <= k < |listing| && Ranked(listing[k], selected) &&
            e == Entry(Distance(extract(selected), extract(ImagePaths.Prefix + listing[k])),
                       ImagePaths.Prefix + listing[k])
      {
        if e in Candidates(selected, init, extract) {
          var k :| 0 <= k < |init| && Ranked(init[k], selected) &&
            e == Entry(Distance(extract(selected), extract(ImagePaths.Prefix + init[k])),
                       ImagePaths.Prefix + init[k]);
          assert listing[k] == init[k];
        }
        if exists k :: 0 <= k < |listing| && Ranked(listing[k], selected) &&
             e == Entry(Distance(extract(selected), extract(ImagePaths.Prefix + listing[k])),
                        ImagePaths.Prefix + listing[k]) {
          var k :| 0 <= k < |listing| && Ranked(listing[k], selected) &&
            e == Entry(Distance(extract(selected), extract(ImagePaths.Prefix + listing[k])),
                       ImagePaths.Prefix + listing[k]);
          if k < |init| {
            assert init[k] == listing[k];
          }
        }
      }
    }
  }

  /** Every path's histogram has the same number of bins, as the two
      extractors give: always 25 intensity bins, always 64 colour-code
      bins. */
  ghost predicate SameBins(extract: string -> Features)
  {
    forall p, q :: |extract(p).hist| == |extract(q).hist|
  }

  /** With one bin count, every collected entry carries the distance that
      `calculate_manhattan` as written returns for it, and that distance is
      not negative. */
  lemma CandidatesAsWritten(selected: string, listing: seq<string>, extract: string -> Features)
    requires SameBins(extract)
    ensures forall e :: e in Candidates(selected, listing, extract) ==>
              DistanceAsWritten(extract(selected), extract(e.path)) == Ok(e.distance) &&
              e.distance >= 0.0
  {
    CandidatesExactly(selected, listing, extract);
    forall e | e in Candidates(selected, listing, extract)
      ensures DistanceAsWritten(extract(selected), extract(e.path)) == Ok(e.distance) && e.distance >= 0.0
    {
      var k :| 0 <= k < |listing| && Ranked(listing[k], selected) &&
        e == Entry(Distance(extract(selected), extract(ImagePaths.Prefix + listing[k])),
                   ImagePaths.Prefix + listing[k]);
      AsWrittenAgreesOnEqualLengths(extract(selected), extract(e.path));
    }
  }

  /** `get_distance`: the selected image's features against every ranked
      file's, sorted ascending by `(distance, path)`. */
  method GetDistance(selected: string, listing: seq<string>, extract: string -> Features)
    returns (ranking: seq<Entry>)
    requires SameBins(extract)
    ensures ranking == Sort(Candidates(selected, listing, extract))
    ensures Sorted(ranking)
    ensures multiset(ranking) == multiset(Candidates(selected, listing, extract))
    ensures |ranking| == RankedCount(selected, listing)
    ensures forall k :: 0 <= k < |ranking| ==> ranking[k].path != selected
    ensures forall k :: 0 <= k < |ranking| ==>
              ranking[k].distance >= 0.0 &&
              DistanceAsWritten(extract(selected), extract(ranking[k].path)) == Ok(ranking[k].distance)
  {
    var query := extract(selected);
    var result: seq<Entry> := [];
    var i := 0;
    while i < |listing|
      invariant 0 <= i <= |listing|
      invariant result == Candidates(selected, listing[..i], extract)
    {
      var name := listing[i];
      assert listing[..i + 1][..i] == listing[..i];
      if name != ThumbsDb {
        var path := ImagePaths.Prefix + name;
        if path != selected {
          var distance := CalculateManhattan(query, extract(path));
          result := result + [Entry(distance, path)];
        }
      }
      i := i + 1;
    }
    assert listing[..|listing|] == listing;
    ranking := Sort(result);
    SortSortedPermutation(result);
    CandidatesExactly(selected, listing, extract);
    CandidatesAsWritten(selected, listing, extract);
    forall k | 0 <= k < |ranking|
      ensures ranking[k].path != selected && ranking[k].distance >= 0.0
      ensures DistanceAsWritten(extract(selected), extract(ranking[k].path)) == Ok(ranking[k].distance)
    {
      assert ranking[k] in multiset(result);
    }
  }

  /** The rankings computed ahead of time for every image of the listing
      (`intensity_data_to_json`, `color_code_data_to_json`, without the
      JSON file): one entry per image other than `Thumbs.db`, each the
      ranking `get_distance` gives for it. */
  method PrecomputeRankings(listing: seq<string>, extract: string -> Features)
    returns (data: map<string, seq<Entry>>)
    requires SameBins(extract)
    ensures forall name :: name in listing && name != ThumbsDb ==> ImagePaths.Prefix + name in data
    ensures forall path :: path in data ==>
              exists k :: 0 <= k < |listing| && listing[k] != ThumbsDb && path == ImagePaths.Prefix + listing[k]
    ensures forall path :: path in data ==> data[path] == Sort(Candidates(path, listing, extract))
  {
    data := map[];
    var i := 0;
    while i < |listing|
      invariant 0 <= i <= |listing|
      invariant forall k :: 0 <= k < i && listing[k] != ThumbsDb ==> ImagePaths.Prefix + listing[k] in data
      invariant forall path :: path in data ==>
                  exists k :: 0 <= k < i && listing[k] != ThumbsDb && path == ImagePaths.Prefix + listing[k]
      invariant forall path :: path in data ==> data[path] == Sort(Candidates(path, listing, extract))
    {
      if listing[i] != ThumbsDb {
        var path := ImagePaths.Prefix + listing[i];
        var ranking := GetDistance(path, listing, extract);
        data := data[path := ranking];
      }
      i := i + 1;
    }
  }
}
