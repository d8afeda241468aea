/** The image cache of ClipboardVault.kt: after every save the least recently used images go,
    each with its thumbnail, until twenty files and 50 MiB are kept. */
module ImageEviction {
  import opened Prelude
  import opened Ordering

  const MAX_IMAGES: nat := 20
  const MAX_TOTAL_BYTES: nat := 50 * 1024 * 1024

  /** A cached image file; `deletable` tells whether deleting it would succeed. */
  datatype Image = Image(base: string, size: nat, modified: nat, deletable: bool)

  function Modified(f: Image): int {
    f.modified
  }

  function Size(f: Image): int {
    f.size
  }

  function TotalBytes(files: seq<Image>): int {
    Sum(files, Size)
  }

  predicate Fits(count: int, bytes: int) {
    count <= MAX_IMAGES && bytes <= MAX_TOTAL_BYTES
  }

  /** The files left, oldest first, when `count` files of `bytes` bytes are still there. */
  function Survivors(files: seq<Image>, count: int, bytes: int): seq<Image> {
    if files == [] || Fits(count, bytes) then files
    else if files[0].deletable then Survivors(files[1..], count - 1, bytes - files[0].size)
    else [files[0]] + Survivors(files[1..], count, bytes)
  }

  function Evicted(files: seq<Image>, count: int, bytes: int): seq<Image> {
    if files == [] || Fits(count, bytes) then []
    else if files[0].deletable then [files[0]] + Evicted(files[1..], count - 1, bytes - files[0].size)
    else Evicted(files[1..], count, bytes)
  }

  function Bases(s: seq<Image>): set<string> {
    set f | f in s :: f.base
  }

  class ImageCache {
    var images: set<Image>
    var thumbnails: set<string>

    constructor (images: set<Image>, thumbnails: set<string>)
      ensures this.images == images && this.thumbnails == thumbnails
    {
      this.images, this.thumbnails := images, thumbnails;
    }

    /** `listing` is the directory in whatever order the system lists it. */
    method EvictLruCacheIfNeeded(listing: seq<Image>)
      requires NoRepeats(listing) && Elements(listing) == images
      modifies this
      ensures var sorted := SortBy(listing, Modified);
              images == Elements(Survivors(sorted, |sorted|, TotalBytes(sorted)))
              && thumbnails == old(thumbnails) - Bases(Evicted(sorted, |sorted|, TotalBytes(sorted)))
    {
      var sorted := SortBy(listing, Modified);
      SortKeepsElements(listing, Modified);
      var currentTotalBytes := TotalBytes(sorted);
      var currentCount := |sorted|;
      ghost var kept: seq<Image> := [];
      ghost var gone: seq<Image> := [];
      var i := 0;
      Begin(sorted, currentCount, currentTotalBytes);
      assert images == Left(sorted, 0, kept);
      hide *;
      while i < |sorted|
        invariant 0 <= i <= |sorted| && NoRepeats(sorted)
        invariant Progress(sorted, |sorted|, TotalBytes(sorted), i, currentCount, currentTotalBytes, kept, gone)
        invariant images == Left(sorted, i, kept) && thumbnails == old(thumbnails) - Bases(gone)
      {
        var file := sorted[i];
        if Fits(currentCount, currentTotalBytes) {
          break;
        }
        Advance(sorted, |sorted|, TotalBytes(sorted), i, currentCount, currentTotalBytes, kept, gone);
        RemoveOneMore(old(thumbnails), Bases(gone), file.base);
        if file.deletable {
          images := images - {file};
          currentCount := currentCount - 1;
          currentTotalBytes := currentTotalBytes - file.size;
          thumbnails := thumbnails - {file.base};
          gone := gone + [file];
        } else {
          kept := kept + [file];
        }
        i := i + 1;
      }
      Finish(sorted, |sorted|, TotalBytes(sorted), i, currentCount, currentTotalBytes, kept, gone);
    }
  }

  lemma RemoveOneMore(all: set<string>, removed: set<string>, x: string)
    ensures all - removed - {x} == all - (removed + {x})
  {
  }

  /** What is on disk when the first `i` files have had their turn. */
  ghost function Left(sorted: seq<Image>, i: nat, kept: seq<Image>): set<Image>
    requires i <= |sorted|
  {
    Elements(kept + sorted[i..])
  }

  /** The loop's own account of survivors and evicted files agrees with the specification. */
  ghost predicate Progress(sorted: seq<Image>, n: int, total: int, i: nat, count: int, bytes: int,
                           kept: seq<Image>, gone: seq<Image>)
  {
    && i <= |sorted|
    && Survivors(sorted, n, total) == kept + Survivors(sorted[i..], count, bytes)
    && Evicted(sorted, n, total) == gone + Evicted(sorted[i..], count, bytes)
    && forall f :: f in kept ==> f in sorted[..i]
  }

  lemma Begin(sorted: seq<Image>, n: int, total: int)
    ensures Progress(sorted, n, total, 0, n, total, [], [])
    ensures Left(sorted, 0, []) == Elements(sorted) && Bases([]) == {}
  {
    assert sorted[0..] == sorted && [] + sorted == sorted;
  }

  lemma Advance(sorted: seq<Image>, n: int, total: int, i: nat, count: int, bytes: int, kept: seq<Image>,
                gone: seq<Image>)
    requires i < |sorted| && NoRepeats(sorted) && !Fits(count, bytes)
    requires Progress(sorted, n, total, i, count, bytes, kept, gone)
    ensures sorted[i].deletable
            ==> Progress(sorted, n, total, i + 1, count - 1, bytes - sorted[i].size, kept, gone + [sorted[i]])
    ensures !sorted[i].deletable ==> Progress(sorted, n, total, i + 1, count, bytes, kept + [sorted[i]], gone)
    ensures Left(sorted, i + 1, kept) == Left(sorted, i, kept) - {sorted[i]}
    ensures Left(sorted, i + 1, kept + [sorted[i]]) == Left(sorted, i, kept)
    ensures Bases(gone + [sorted[i]]) == Bases(gone) + {sorted[i].base}
  {
    SurvivorsStep(sorted, i, count, bytes);
    ElementsStep(kept, sorted, i);
    BasesStep(gone, sorted[i]);
    hide Survivors, Evicted, Elements, Bases, NoRepeats;
  }

  lemma Finish(sorted: seq<Image>, n: int, total: int, i: nat, count: int, bytes: int, kept: seq<Image>,
                gone: seq<Image>)
    requires Progress(sorted, n, total, i, count, bytes, kept, gone)
    requires i == |sorted| || Fits(count, bytes)
    ensures Left(sorted, i, kept) == Elements(Survivors(sorted, n, total)) && gone == Evicted(sorted, n, total)
  {
    assert gone + [] == gone;
  }

  lemma SurvivorsStep(sorted: seq<Image>, i: nat, count: int, bytes: int)
    requires i < |sorted|
    ensures Fits(count, bytes)
            ==> Survivors(sorted[i..], count, bytes) == sorted[i..] && Evicted(sorted[i..], count, bytes) == []
    ensures !Fits(count, bytes) && sorted[i].deletable ==>
              Survivors(sorted[i..], count, bytes) == Survivors(sorted[i + 1..], count - 1, bytes - sorted[i].size)
              && Evicted(sorted[i..], count, bytes)
                 == [sorted[i]] + Evicted(sorted[i + 1..], count - 1, bytes - sorted[i].size)
    ensures !Fits(count, bytes) && !sorted[i].deletable ==>
              Survivors(sorted[i..], count, bytes) == [sorted[i]] + Survivors(sorted[i + 1..], count, bytes)
              && Evicted(sorted[i..], count, bytes) == Evicted(sorted[i + 1..], count, bytes)
  {
    hide Fits;
    SurvivorsStepOf(sorted[i..], count, bytes);
    assert sorted[i..][1..] == sorted[i + 1..];
    hide Survivors, Evicted;
  }

  lemma SurvivorsStepOf(rest: seq<Image>, count: int, bytes: int)
    requires rest != []
    ensures Fits(count, bytes) ==> Survivors(rest, count, bytes) == rest && Evicted(rest, count, bytes) == []
    ensures !Fits(count, bytes) && rest[0].deletable ==>
              Survivors(rest, count, bytes) == Survivors(rest[1..], count - 1, bytes - rest[0].size)
              && Evicted(rest, count, bytes) == [rest[0]] + Evicted(rest[1..], count - 1, bytes - rest[0].size)
    ensures !Fits(count, bytes) && !rest[0].deletable ==>
              Survivors(rest, count, bytes) == [rest[0]] + Survivors(rest[1..], count, bytes)
              && Evicted(rest, count, bytes) == Evicted(rest[1..], count, bytes)
  {
    hide Fits;
  }

  lemma BasesStep(gone: seq<Image>, f: Image)
    ensures Bases(gone + [f]) == Bases(gone) + {f.base}
  {
    assert forall g :: g in gone + [f] <==> g in gone || g == f;
  }

  lemma ElementsStep(kept: seq<Image>, sorted: seq<Image>, i: nat)
    requires i < |sorted| && NoRepeats(sorted) && forall f :: f in kept ==> f in sorted[..i]
    ensures Elements(kept + sorted[i + 1..]) == Elements(kept + sorted[i..]) - {sorted[i]}
    ensures Elements(kept + [sorted[i]] + sorted[i + 1..]) == Elements(kept + sorted[i..])
    ensures forall f :: f in kept + [sorted[i]] ==> f in sorted[..i + 1]
  {
    assert sorted[i..] == [sorted[i]] + sorted[i + 1..];
    assert sorted[..i + 1] == sorted[..i] + [sorted[i]];
    assert sorted[i] !in sorted[..i] && sorted[i] !in sorted[i + 1..];
  }

  lemma {:induction false} BytesOfRest(files: seq<Image>)
    requires files != []
    ensures TotalBytes(files) == files[0].size + TotalBytes(files[1..])
  {
    assert files == [files[0]] + files[1..];
    SumConcat([files[0]], files[1..], Size);
  }

  /** The shortest prefix whose removal makes the rest fit. */
  predicate ShortestPrefix(files: seq<Image>, k: nat)
    requires k <= |files|
  {
    Fits(|files| - k, TotalBytes(files[k..])) && forall j :: 0 <= j < k ==> !Fits(|files| - j, TotalBytes(files[j..]))
  }

  lemma {:induction false} EvictsFrom(files: seq<Image>) returns (k: nat)
    requires forall f :: f in files ==> f.deletable
    ensures k <= |files| && ShortestPrefix(files, k)
    ensures Survivors(files, |files|, TotalBytes(files)) == files[k..]
    ensures Evicted(files, |files|, TotalBytes(files)) == files[..k]
  {
    if files != [] {
      SurvivorsStepOf(files, |files|, TotalBytes(files));
      BytesOfRest(files);
    }
    if files == [] || Fits(|files|, TotalBytes(files)) {
      k := 0;
      assert files[0..] == files;
    } else {
      hide Survivors, Evicted, TotalBytes, Fits, ShortestPrefix;
      var n := EvictsFrom(files[1..]);
      k := n + 1;
      assert files[k..] == files[1..][n..];
      assert files[..k] == [files[0]] + files[1..][..n];
      OneMoreGoes(files, n);
    }
  }

  lemma OneMoreGoes(files: seq<Image>, n: nat)
    requires files != [] && !Fits(|files|, TotalBytes(files)) && n < |files| && ShortestPrefix(files[1..], n)
    ensures ShortestPrefix(files, n + 1)
  {
    hide TotalBytes;
    var rest := files[1..];
    assert files[n + 1..] == rest[n..];
    forall j | 0 <= j < n + 1 ensures !Fits(|files| - j, TotalBytes(files[j..])) {
      if j == 0 {
        assert files[0..] == files;
      } else {
        assert files[j..] == rest[j - 1..];
        assert !Fits(|rest| - (j - 1), TotalBytes(rest[j - 1..]));
      }
    }
  }

  /** If deletions succeed, exactly the shortest oldest prefix goes: what stays is the longest
      newest-first run within both limits. */
  lemma ShortestOldestPrefixGoes(listing: seq<Image>)
    requires forall f :: f in listing ==> f.deletable
    ensures var sorted := SortBy(listing, Modified);
            exists k: nat :: k <= |sorted| && ShortestPrefix(sorted, k)
              && Survivors(sorted, |sorted|, TotalBytes(sorted)) == sorted[k..]
              && Evicted(sorted, |sorted|, TotalBytes(sorted)) == sorted[..k]
  {
    var sorted := SortBy(listing, Modified);
    SortBySorts(listing, Modified);
    forall f | f in sorted ensures f.deletable {
      assert f in multiset(sorted);
      assert f in multiset(listing);
    }
    var k := EvictsFrom(sorted);
  }

  /** Whatever deletions fail: afterwards both limits hold, or nothing deletable is left. */
  lemma {:induction false} LimitsHoldOrNothingDeletable(files: seq<Image>, stuck: seq<Image>)
    requires forall f :: f in stuck ==> !f.deletable
    ensures var rest := Survivors(files, |stuck| + |files|, TotalBytes(stuck) + TotalBytes(files));
            Fits(|stuck| + |rest|, TotalBytes(stuck) + TotalBytes(rest)) || (forall f :: f in rest ==> !f.deletable)
  {
    if files != [] {
      SurvivorsStepOf(files, |stuck| + |files|, TotalBytes(stuck) + TotalBytes(files));
      BytesOfRest(files);
    }
    hide Survivors, Fits;
    if files != [] && !Fits(|stuck| + |files|, TotalBytes(stuck) + TotalBytes(files)) {
      if files[0].deletable {
        LimitsHoldOrNothingDeletable(files[1..], stuck);
      } else {
        SumConcat(stuck, [files[0]], Size);
        LimitsHoldOrNothingDeletable(files[1..], stuck + [files[0]]);
        var rest := Survivors(files[1..], |stuck| + |files|, TotalBytes(stuck) + TotalBytes(files));
        SumConcat([files[0]], rest, Size);
      }
    }
  }
}
