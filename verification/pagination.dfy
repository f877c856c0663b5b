/** The result pages of the interface: the session keeps the last
    retrieved ranking and the current page number; "Retrieve Images",
    "Next Page" and "Previous Page" update them, and each run shows the
    paths of the current page's window. The precomputed rankings loaded
    from the two JSON files are given to the session when it starts. */
module Pagination {
  import opened Common
  import opened Ranking
  import ImagePaths

  /** Results shown per page (`N`). */
  const PageSize: nat := 20

  /** The choices of the method selection box. */
  datatype Method = NoMethod | Intensity | ColorCode | IntensityAndColorCode

  /** What pressing "Retrieve Images" leads to. */
  datatype Outcome =
    | Retrieved           // the ranking of the selected image is now shown
    | MethodNotSelected   // "Please select a method first."
    | MissingImage        // the ranking has no entry for the image: KeyError

  /** `last_page`: the index of the last page of a ranking. */
  function LastPage(results: seq<Entry>): (last: nat)
    ensures last * PageSize <= |results| < (last + 1) * PageSize
  {
    |results| / PageSize
  }

  /** First index shown on page `page`. */
  function WindowStart(page: nat): nat
  {
    page * PageSize
  }

  /** One past the last index shown on page `page`: the page's end, brought
      down to 99 when it is 100. */
  function WindowEnd(page: nat): (end: nat)
    ensures WindowStart(page) < end <= WindowStart(page) + PageSize
    ensures end < WindowStart(page) + PageSize <==> page == 4
  {
    if (page + 1) * PageSize == 100 then 99 else (page + 1) * PageSize
  }

  /** `img_results`: the paths of a ranking, in order. */
  function Paths(results: seq<Entry>): (paths: seq<string>)
    ensures |paths| == |results|
    ensures forall k :: 0 <= k < |results| ==> paths[k] == results[k].path
  {
    seq(|results|, k requires 0 <= k < |results| => results[k].path)
  }

  class Session {
    /** The precomputed intensity rankings, by image path. */
    const intensity: map<string, seq<Entry>>
    /** The precomputed colour-code rankings, by image path. */
    const colorCode: map<string, seq<Entry>>
    /** The ranking on show; `None` stands for the initial `-1`. */
    var results: Option<seq<Entry>>
    var pageNumber: int

    /** The page number lies between 0 and the last page of the ranking on
        show, and is 0 while nothing has been retrieved. */
    ghost predicate Valid()
      reads this
    {
      0 <= pageNumber &&
      (results.None? ==> pageNumber == 0) &&
      (results.Some? ==> pageNumber <= LastPage(results.value))
    }

    constructor(intensity: map<string, seq<Entry>>, colorCode: map<string, seq<Entry>>)
      ensures this.intensity == intensity && this.colorCode == colorCode
      ensures results == None && pageNumber == 0
      ensures Valid()
    {
      this.intensity := intensity;
      this.colorCode := colorCode;
      results := None;
      pageNumber := 0;
    }

    /** "Retrieve Images" for image `imgNum`: back to the first page; the
        selected method's ranking for the image's path replaces the one on
        show, and without a usable method or a ranking for the path the one
        on show stays. */
    method Retrieve(imgNum: nat, option: Method) returns (outcome: Outcome)
      modifies this
      ensures pageNumber == 0
      ensures (option == NoMethod || option == IntensityAndColorCode) ==>
                outcome == MethodNotSelected && results == old(results)
      ensures option == Intensity ==>
                if ImagePaths.ImagePath(imgNum) in intensity
                then outcome == Retrieved && results == Some(intensity[ImagePaths.ImagePath(imgNum)])
                else outcome == MissingImage && results == old(results)
      ensures option == ColorCode ==>
                if ImagePaths.ImagePath(imgNum) in colorCode
                then outcome == Retrieved && results == Some(colorCode[ImagePaths.ImagePath(imgNum)])
                else outcome == MissingImage && results == old(results)
      ensures Valid()
    {
      pageNumber := 0;
      var imgPath := ImagePaths.ImagePath(imgNum);
      if option == NoMethod || option == IntensityAndColorCode {
        return MethodNotSelected;
      }
      var rankings := if option == Intensity then intensity else colorCode;
      if imgPath !in rankings {
        return MissingImage;
      }
      results := Some(rankings[imgPath]);
      outcome := Retrieved;
    }

    /** "Next Page": one page on, but never past the last page. */
    method NextPage()
      requires results.Some?
      modifies this
      ensures results == old(results)
      ensures pageNumber == if old(pageNumber) + 1 > LastPage(results.value)
                            then LastPage(results.value) else old(pageNumber) + 1
      ensures old(Valid()) ==> Valid()
      ensures old(Valid()) && old(pageNumber) < LastPage(results.value) ==> pageNumber == old(pageNumber) + 1
      ensures old(Valid()) && old(pageNumber) == LastPage(results.value) ==> pageNumber == old(pageNumber)
    {
      var lastPage := LastPage(results.value);
      if pageNumber + 1 > lastPage {
        pageNumber := lastPage;
      } else {
        pageNumber := pageNumber + 1;
      }
    }

    /** "Previous Page": one page back, but never before the first. */
    method PreviousPage()
      requires results.Some?
      modifies this
      ensures results == old(results)
      ensures pageNumber == if old(pageNumber) - 1 < 0 then 0 else old(pageNumber) - 1
      ensures old(Valid()) ==> Valid()
      ensures old(Valid()) && old(pageNumber) > 0 ==> pageNumber == old(pageNumber) - 1
      ensures old(Valid()) && old(pageNumber) == 0 ==> pageNumber == 0
    {
      if pageNumber - 1 < 0 {
        pageNumber := 0;
      } else {
        pageNumber := pageNumber - 1;
      }
    }

    /** The paths shown for the current page: the grid loops walk
        `start_idx` through the page's window five columns at a time; an
        index past the end of the ranking raises IndexError. */
    method Display() returns (shown: Result<seq<string>>)
      requires results.Some? && Valid()
      ensures var paths := Paths(results.value);
              if WindowEnd(pageNumber) <= |paths|
              then shown == Ok(paths[WindowStart(pageNumber)..WindowEnd(pageNumber)])
              else shown == Err(IndexError)
    {
      var paths := Paths(results.value);
      var page: nat := pageNumber;
      var first := page * PageSize;
      var startIdx := first;
      var endIdx := (1 + page) * PageSize;
      var out: seq<string> := [];
      while startIdx < endIdx
        invariant (startIdx == first && endIdx == (1 + page) * PageSize && out == []) ||
                  (endIdx == WindowEnd(page) <= startIdx && endIdx <= |paths| && out == paths[first..endIdx])
        decreases endIdx - startIdx
      {
        if endIdx == 100 {
          endIdx := endIdx - 1;
        }
        var row := 0;
        while row < endIdx
          invariant 0 <= row <= endIdx == WindowEnd(page)
          invariant startIdx == first + 5 * row
          invariant Min(startIdx, endIdx) <= |paths|
          invariant out == paths[first..Min(startIdx, endIdx)]
        {
          var col := 0;
          while col < 5
            invariant 0 <= col <= 5
            invariant startIdx == first + 5 * row + col
            invariant Min(startIdx, endIdx) <= |paths|
            invariant out == paths[first..Min(startIdx, endIdx)]
          {
            if startIdx < endIdx {
              if startIdx >= |paths| {
                return Err(IndexError);
              }
              out := out + [paths[startIdx]];
            }
            startIdx := startIdx + 1;
            col := col + 1;
          }
          row := row + 1;
        }
      }
      shown := Ok(out);
    }
  }

  /** The page on which index `k` of a ranking falls. */
  function PageOf(k: nat): nat
  {
    k / PageSize
  }

  function Min(a: int, b: int): int
  {
    if a <= b then a else b
  }

  /** A ranking of the other 99 images has pages 0..4, and its windows
      show every index exactly once: index `k` on page `PageOf(k)` and on
      no other page. */
  lemma PagesTileNinetyNine(results: seq<Entry>)
    requires |results| == 99
    ensures LastPage(results) == 4
    ensures forall p: nat :: p <= LastPage(results) ==> WindowEnd(p) <= |results|
    ensures forall k: nat, p: nat :: k < |results| && p <= LastPage(results) ==>
              (WindowStart(p) <= k < WindowEnd(p) <==> p == PageOf(k))
  {
  }

  /** The window trimming suits 99 results only: with 100, index 99 is
      on no page and the last page reads past the end. */
  lemma PagesWithHundredResults(results: seq<Entry>)
    requires |results| == 100
    ensures LastPage(results) == 5 && WindowEnd(LastPage(results)) > |results|
    ensures forall p: nat :: !(WindowStart(p) <= 99 < WindowEnd(p))
  {
  }
}
