/**
 * The result-slot bookkeeping of the crawl: `FILES` is the folder listing,
 * `TITLES` the titles derived from it and `NAMES` starts as a copy of
 * `TITLES`.  Every crawl looks its title up with `TITLES.index(title)`,
 * writes the resolved name into `NAMES` at that index and takes the file to
 * relocate from `FILES` at the same index.
 */
module CrawlReport {
  import opened Wrappers
  import MovieName

  /**
   * Python's `titles.index(title)`: the first index holding `title`, or
   * `None` where Python raises `ValueError`.
   */
  function IndexOf(titles: seq<string>, title: string): (r: Option<nat>)
    ensures r.Some? ==> r.value < |titles| && titles[r.value] == title
    ensures r.Some? ==> forall j :: 0 <= j < r.value ==> titles[j] != title
    ensures r.None? <==> title !in titles
  {
    if |titles| == 0 then None
    else if titles[0] == title then Some(0)
    else
      match IndexOf(titles[1..], title)
      case None => None
      case Some(i) => Some(i + 1)
  }

  /** `list(map(get_movie_name, FILES))`. */
  function DeriveTitles(files: seq<string>): (titles: seq<string>)
    ensures |titles| == |files|
    ensures forall i :: 0 <= i < |files| ==> titles[i] == MovieName.GetMovieName(files[i])
  {
    seq(|files|, i requires 0 <= i < |files| => MovieName.GetMovieName(files[i]))
  }

  /**
   * A crawl that got as far as writing its slot: the title it searched for
   * and the name it read from the movie page.  A crawl that raises before
   * that point writes nothing; one that raises after it has already
   * written its slot.
   */
  datatype Crawl = Crawl(title: string, name: string)

  /**
   * The report after one crawl: its name is written into the first slot
   * whose title equals the crawl's, and every other slot keeps its entry.
   */
  function Resolved(titles: seq<string>, names: seq<string>, crawl: Crawl): (r: seq<string>)
    requires |names| == |titles|
    ensures |r| == |names|
    ensures crawl.title !in titles ==> r == names
    ensures forall j :: (0 <= j < |names| && titles[j] == crawl.title &&
                         forall k :: 0 <= k < j ==> titles[k] != crawl.title) ==> r[j] == crawl.name
    ensures forall j :: (0 <= j < |names| && (titles[j] != crawl.title ||
                         exists k :: 0 <= k < j && titles[k] == crawl.title)) ==> r[j] == names[j]
  {
    match IndexOf(titles, crawl.title)
    case None => names
    case Some(i) => names[i := crawl.name]
  }

  /** The file a crawl of `title` relocates: `FILES[TITLES.index(title)]`. */
  function FileFor(files: seq<string>, titles: seq<string>, title: string): (file: Option<string>)
    requires |files| == |titles|
    ensures file.None? <==> title !in titles
    ensures forall i :: (0 <= i < |files| && titles[i] == title &&
                         forall k :: 0 <= k < i ==> titles[k] != title) ==> file == Some(files[i])
  {
    match IndexOf(titles, title)
    case None => None
    case Some(i) => Some(files[i])
  }

  /** The report after the crawls wrote their slots in the order given. */
  function ResolveAll(titles: seq<string>, names: seq<string>, crawls: seq<Crawl>): (r: seq<string>)
    requires |names| == |titles|
    ensures |r| == |names|
  {
    if |crawls| == 0 then names
    else
      var n := |crawls| - 1;
      Resolved(titles, ResolveAll(titles, names, crawls[..n]), crawls[n])
  }

  /**
   * Whatever crawls write their slots, in whatever order, a slot that none
   * of them targets keeps its entry.
   */
  lemma {:induction false} ResolveAllUntouched(titles: seq<string>, names: seq<string>, crawls: seq<Crawl>, j: nat)
    requires |names| == |titles| && j < |titles|
    requires forall c :: 0 <= c < |crawls| ==> IndexOf(titles, crawls[c].title) != Some(j)
    ensures ResolveAll(titles, names, crawls)[j] == names[j]
  {
    if |crawls| > 0 {
      var n := |crawls| - 1;
      var prefix := crawls[..n];
      assert forall c :: 0 <= c < n ==> prefix[c] == crawls[c];
      ResolveAllUntouched(titles, names, prefix, j);
      assert IndexOf(titles, crawls[n].title) != Some(j);
    }
  }

  /**
   * A slot some crawl targets holds the name of the last crawl that wrote
   * it, whatever order the crawls write in.
   */
  lemma {:induction false} ResolveAllLastWins(titles: seq<string>, names: seq<string>, crawls: seq<Crawl>, c: nat)
    requires |names| == |titles| && c < |crawls|
    requires IndexOf(titles, crawls[c].title).Some?
    requires forall d :: c < d < |crawls| ==> IndexOf(titles, crawls[d].title) != IndexOf(titles, crawls[c].title)
    ensures ResolveAll(titles, names, crawls)[IndexOf(titles, crawls[c].title).value] == crawls[c].name
  {
    var n := |crawls| - 1;
    var prefix := crawls[..n];
    if c < n {
      assert prefix[c] == crawls[c];
      assert forall d :: c < d < n ==> prefix[d] == crawls[d];
      ResolveAllLastWins(titles, names, prefix, c);
      assert IndexOf(titles, crawls[n].title) != IndexOf(titles, crawls[c].title);
    }
  }

  /**
   * Files whose derived titles are equal share one slot: a slot whose title
   * occurs earlier in the list is never written, whatever crawls run.
   */
  lemma SharedTitleSlotKeepsItsTitle(files: seq<string>, crawls: seq<Crawl>, i: nat, j: nat)
    requires i < j < |files|
    requires DeriveTitles(files)[i] == DeriveTitles(files)[j]
    ensures ResolveAll(DeriveTitles(files), DeriveTitles(files), crawls)[j] == DeriveTitles(files)[j]
  {
    var titles := DeriveTitles(files);
    forall c | 0 <= c < |crawls|
      ensures IndexOf(titles, crawls[c].title) != Some(j)
    {
    }
    ResolveAllUntouched(titles, titles, crawls, j);
  }

  /**
   * ... and the later file of two with the same title is never the one a
   * crawl relocates (the names of a folder listing are distinct).
   */
  lemma SharedTitleFileNeverRelocated(files: seq<string>, title: string, i: nat, j: nat)
    requires i < j < |files|
    requires forall a, b :: 0 <= a < b < |files| ==> files[a] != files[b]
    requires DeriveTitles(files)[i] == DeriveTitles(files)[j]
    ensures FileFor(files, DeriveTitles(files), title) != Some(files[j])
  {
    var titles := DeriveTitles(files);
    match IndexOf(titles, title)
    case None =>
    case Some(k) =>
      if k < j {
        assert files[k] != files[j];
      } else {
        assert files[j] != files[k];
      }
  }

  /**
   * The report of the crawl: the listing, the titles derived from it and
   * the names resolved so far, index-aligned.
   */
  class Report {
    const files: seq<string>
    const titles: seq<string>
    var names: seq<string>

    ghost predicate Valid()
      reads this
    {
      |titles| == |files| && |names| == |titles|
    }

    /** `TITLES = list(map(get_movie_name, FILES))` and `NAMES = TITLES.copy()`. */
    constructor (listing: seq<string>)
      ensures Valid()
      ensures files == listing && titles == DeriveTitles(listing) && names == titles
    {
      files := listing;
      titles := DeriveTitles(listing);
      names := DeriveTitles(listing);
    }

    /**
     * The bookkeeping of a crawl of `title` that resolved `name`:
     * `idx = TITLES.index(title)`, `NAMES[idx] = name`, `filename = FILES[idx]`.
     * A title missing from `TITLES` raises `ValueError`: `filename` is `None`
     * and nothing changes.
     */
    method Record(title: string, name: string) returns (filename: Option<string>)
      requires Valid()
      modifies this
      ensures Valid()
      ensures names == Resolved(titles, old(names), Crawl(title, name))
      ensures filename == FileFor(files, titles, title)
    {
      var idx := IndexOf(titles, title);
      match idx
      case None =>
        filename := None;
      case Some(i) =>
        names := names[i := name];
        filename := Some(files[i]);
    }
  }
}
