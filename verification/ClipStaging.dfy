/** The desktop's clipboard staging directory (src/main.rs): one pass over the files, newest
    first, keeps what fits into twenty files and 50 MiB and drops the rest. */
module ClipStaging {
  import opened Prelude
  import opened Ordering

  const MAX_CLIP_STAGING_FILES: nat := 20
  const MAX_CLIP_STAGING_BYTES: nat := 50 * 1024 * 1024
  const THUMB_SUFFIX := "_thumb.webp"

  const TEMP_PREFIX := ".tmp_"
  const SECOND: nat := 1_000_000_000

  /** A directory entry; `modified` is in nanoseconds, and `deletable` tells whether removing it
      would succeed. */
  datatype File = File(name: string, size: nat, modified: nat, link: bool, deletable: bool)

  /** A temporary file that has been lying around for more than ten whole seconds. */
  predicate OldTemp(f: File, now: nat) {
    TEMP_PREFIX <= f.name && f.modified <= now && (now - f.modified) / SECOND > 10
  }

  /** Links and old temporary files are removed without being looked at any further. */
  predicate Discarded(f: File, now: nat) {
    f.link || OldTemp(f, now)
  }

  function Looked(now: nat): File -> bool {
    f => !Discarded(f, now)
  }

  predicate EndsWith(s: string, suffix: string) {
    |s| >= |suffix| && s[|s| - |suffix|..] == suffix
  }

  predicate IsThumb(f: File) {
    EndsWith(f.name, THUMB_SUFFIX)
  }

  /** Strips the suffix as often as it occurs at the end. */
  function TrimThumb(s: string): string {
    if EndsWith(s, THUMB_SUFFIX) then TrimThumb(s[..|s| - |THUMB_SUFFIX|]) else s
  }

  /** Everything before the last dot; a leading dot does not count. */
  function Stem(s: string, upTo: nat): string
    requires upTo <= |s|
  {
    if upTo <= 1 then s
    else if s[upTo - 1] == '.' then s[..upTo - 1]
    else Stem(s, upTo - 1)
  }

  function Hash(f: File): string {
    if IsThumb(f) then TrimThumb(f.name) else Stem(f.name, |f.name|)
  }

  function ThumbName(hash: string): string {
    hash + THUMB_SUFFIX
  }

  function Newest(f: File): int {
    0 - f.modified
  }

  /** The running state of the pass and what is on disk. */
  datatype Pass = Pass(total: nat, kept: nat, hashes: set<string>, disk: set<File>)

  predicate HasRoom(p: Pass, f: File) {
    p.kept < MAX_CLIP_STAGING_FILES && p.total + f.size <= MAX_CLIP_STAGING_BYTES
  }

  function Without(disk: set<File>, name: string): set<File> {
    set e | e in disk && (e.name != name || !e.deletable)
  }

  /** The disk once the discarded entries have been removed, where that is possible. */
  function Cleared(disk: set<File>, now: nat): set<File> {
    set e | e in disk && (!Discarded(e, now) || !e.deletable)
  }

  function Visit(p: Pass, f: File): Pass {
    if IsThumb(f) then
      if Hash(f) in p.hashes && HasRoom(p, f) then p.(total := p.total + f.size, kept := p.kept + 1)
      else p.(disk := Without(p.disk, f.name))
    else
      if HasRoom(p, f) then p.(total := p.total + f.size, kept := p.kept + 1, hashes := p.hashes + {Hash(f)})
      else p.(disk := Without(Without(p.disk, f.name), ThumbName(Hash(f))))
  }

  function Sweep(p: Pass, files: seq<File>): Pass
    decreases files
  {
    if files == [] then p else Sweep(Visit(p, files[0]), files[1..])
  }

  function Start(disk: set<File>): Pass {
    Pass(0, 0, {}, disk)
  }

  predicate DistinctNames(files: seq<File>) {
    forall i, j :: 0 <= i < j < |files| ==> files[i].name != files[j].name
  }

  class StagingDir {
    var disk: set<File>

    constructor (disk: set<File>)
      ensures this.disk == disk
    {
      this.disk := disk;
    }

    /** `listing` is the directory in whatever order the system lists it. */
    method CleanupClipStaging(listing: seq<File>, now: nat)
      requires DistinctNames(listing) && Elements(listing) == disk
      modifies this
      ensures disk == AfterCleanup(listing, now)
    {
      var files := CollectFiles(listing, now);
      files := SortBy(files, Newest);
      var totalSize: nat, keptCount: nat := 0, 0;
      var keptHashes: set<string> := {};
      ghost var goal := Sweep(Start(disk), files);
      for i := 0 to |files|
        invariant Sweep(Pass(totalSize, keptCount, keptHashes, disk), files[i..]) == goal
      {
        var f := files[i];
        assert files[i..][1..] == files[i + 1..];
        var hash := Hash(f);
        var room := keptCount < MAX_CLIP_STAGING_FILES && totalSize + f.size <= MAX_CLIP_STAGING_BYTES;
        if !IsThumb(f) {
          if room {
            totalSize := totalSize + f.size;
            keptCount := keptCount + 1;
            keptHashes := keptHashes + {hash};
          } else {
            disk := Without(disk, f.name);
            disk := Without(disk, ThumbName(hash));
          }
        } else {
          if hash in keptHashes && room {
            totalSize := totalSize + f.size;
            keptCount := keptCount + 1;
          } else {
            disk := Without(disk, f.name);
          }
        }
      }
    }

    /** The first pass: discards what it does not look at and collects the rest. */
    method CollectFiles(listing: seq<File>, now: nat) returns (files: seq<File>)
      requires DistinctNames(listing) && Elements(listing) == disk
      modifies this
      ensures files == Filter(listing, Looked(now)) && disk == Cleared(old(disk), now)
    {
      files := [];
      for i := 0 to |listing|
        invariant files + Filter(listing[i..], Looked(now)) == Filter(listing, Looked(now))
        invariant disk == Cleared(Elements(listing[..i]), now) + Elements(listing[i..])
      {
        var f := listing[i];
        SplitAt(listing, i);
        assert listing[i..][0] == f && listing[i..][1..] == listing[i + 1..];
        if Discarded(f, now) {
          disk := Without(disk, f.name);
        } else {
          files := files + [f];
        }
      }
      assert listing[..|listing|] == listing && listing[|listing|..] == [];
    }
  }

  lemma SplitAt(listing: seq<File>, i: nat)
    requires i < |listing| && DistinctNames(listing)
    ensures Elements(listing[..i + 1]) == Elements(listing[..i]) + {listing[i]}
    ensures Elements(listing[i..]) == Elements(listing[i + 1..]) + {listing[i]}
    ensures forall g :: g in listing[..i] || g in listing[i + 1..] ==> g.name != listing[i].name
  {
    assert listing[..i + 1] == listing[..i] + [listing[i]] && listing[i..] == [listing[i]] + listing[i + 1..];
    AroundOne(listing, i);
  }

  /** The files the second pass goes through, newest first. */
  function Candidates(listing: seq<File>, now: nat): seq<File> {
    SortBy(Filter(listing, Looked(now)), Newest)
  }

  // ------------------------------------------------------------------ the limits

  /** On disk, and not for want of a way to remove it. */
  function In(disk: set<File>): File -> bool {
    f => f in disk && f.deletable
  }

  function Size(f: File): int {
    f.size
  }

  /** The files of the list still on disk after the pass, in list order, apart from those that
      cannot be removed. */
  function Left(p: Pass, files: seq<File>): seq<File> {
    Filter(files, In(Sweep(p, files).disk))
  }

  lemma {:induction false} SweepShrinks(p: Pass, files: seq<File>)
    ensures Sweep(p, files).disk <= p.disk && p.hashes <= Sweep(p, files).hashes
    ensures p.kept <= MAX_CLIP_STAGING_FILES && p.total <= MAX_CLIP_STAGING_BYTES ==>
              Sweep(p, files).kept <= MAX_CLIP_STAGING_FILES && Sweep(p, files).total <= MAX_CLIP_STAGING_BYTES
    decreases files
  {
    if files != [] {
      SweepShrinks(Visit(p, files[0]), files[1..]);
    }
  }

  lemma {:induction false} SurvivorsWereCounted(p: Pass, files: seq<File>)
    ensures |Left(p, files)| <= Sweep(p, files).kept - p.kept
    ensures Sum(Left(p, files), Size) <= Sweep(p, files).total - p.total
    decreases files
  {
    if files != [] {
      var f, q, rest := files[0], Visit(p, files[0]), files[1..];
      SurvivorsWereCounted(q, rest);
      SweepShrinks(q, rest);
      SumConcat([f], Left(q, rest), Size);
      assert Left(p, files) == if f in Sweep(p, files).disk && f.deletable then [f] + Left(q, rest) else Left(q, rest);
    }
  }

  // ---------------------------------------------------------- images and thumbnails

  /** An image that was kept is never removed by a later file's turn. */
  lemma {:induction false} ImageStays(p: Pass, files: seq<File>, g: File)
    requires g in p.disk && !IsThumb(g) && forall f :: f in files ==> f.name != g.name
    ensures g in Sweep(p, files).disk
    decreases files
  {
    if files != [] {
      ThumbNameIsThumb(Hash(files[0]));
      ImageStays(Visit(p, files[0]), files[1..], g);
    }
  }

  lemma ThumbNameIsThumb(hash: string)
    ensures EndsWith(ThumbName(hash), THUMB_SUFFIX)
  {
  }

  lemma {:induction false} KeptThumbHasKeptHash(p: Pass, files: seq<File>, t: File)
    requires t in files && IsThumb(t) && t in Sweep(p, files).disk && t.deletable
    ensures Hash(t) in Sweep(p, files).hashes
    decreases files
  {
    var q, rest := Visit(p, files[0]), files[1..];
    SweepShrinks(q, rest);
    if t in rest {
      KeptThumbHasKeptHash(q, rest, t);
    } else {
      assert t == files[0];
    }
  }

  lemma {:induction false} KeptHashHasImage(p: Pass, files: seq<File>, h: string) returns (g: File)
    requires DistinctNames(files) && (forall f :: f in files ==> f in p.disk || IsThumb(f))
    requires h in Sweep(p, files).hashes && h !in p.hashes
    ensures g in files && !IsThumb(g) && Hash(g) == h && g in Sweep(p, files).disk
    decreases files
  {
    var q, rest := Visit(p, files[0]), files[1..];
    if h in q.hashes {
      g := files[0];
      ImageStays(q, rest, g);
    } else {
      ThumbNameIsThumb(Hash(files[0]));
      g := KeptHashHasImage(q, rest, h);
    }
  }

  /** What a cleanup leaves: apart from what cannot be removed at most twenty files and at most
      50 MiB, and every thumbnail among them next to an image with its hash. */
  predicate Tidy(disk: set<File>, left: seq<File>) {
    && |left| <= MAX_CLIP_STAGING_FILES
    && Sum(left, Size) <= MAX_CLIP_STAGING_BYTES
    && forall t :: t in left && IsThumb(t) ==> HasImage(disk, Hash(t))
  }

  predicate HasImage(disk: set<File>, h: string) {
    exists g :: g in disk && !IsThumb(g) && Hash(g) == h
  }

  function Removable(disk: set<File>): set<File> {
    set f | f in disk && f.deletable
  }

  lemma SweepLeavesTidy(disk: set<File>, files: seq<File>)
    requires DistinctNames(files) && Elements(files) <= disk && Removable(disk) <= Elements(files)
    ensures var p := Start(disk);
            Tidy(Sweep(p, files).disk, Left(p, files)) && Elements(Left(p, files)) == Removable(Sweep(p, files).disk)
  {
    var p := Start(disk);
    var after := Sweep(p, files).disk;
    SweepShrinks(p, files);
    SurvivorsWereCounted(p, files);
    FilterMembers(files, In(after));
    forall t | t in Left(p, files) && IsThumb(t) ensures HasImage(after, Hash(t)) {
      KeptThumbHasKeptHash(p, files, t);
      var g := KeptHashHasImage(p, files, Hash(t));
    }
    forall f | f in Removable(after) ensures f in Left(p, files) {
      assert f in Removable(disk);
    }
  }

  lemma SortKeepsNames(listing: seq<File>)
    requires DistinctNames(listing)
    ensures var files := SortBy(listing, Newest); DistinctNames(files) && Elements(files) == Elements(listing)
  {
    var files := SortBy(listing, Newest);
    SortKeepsElements(listing, Newest);
    forall i, j | 0 <= i < j < |files| ensures files[i].name != files[j].name {
      assert files[i] in listing && files[j] in listing;
      var a :| 0 <= a < |listing| && listing[a] == files[i];
      var b :| 0 <= b < |listing| && listing[b] == files[j];
      assert files[i] != files[j];
    }
  }

  lemma {:induction false} FilterKeepsNames(listing: seq<File>, now: nat)
    requires DistinctNames(listing)
    ensures DistinctNames(Filter(listing, Looked(now)))
  {
    if listing != [] {
      FilterKeepsNames(listing[1..], now);
      FilterMembers(listing[1..], Looked(now));
      var rest := Filter(listing[1..], Looked(now));
      forall f | f in rest ensures f.name != listing[0].name {
        assert f in listing[1..];
      }
    }
  }

  lemma CandidatesAre(listing: seq<File>, now: nat)
    requires DistinctNames(listing)
    ensures var files := Candidates(listing, now);
            DistinctNames(files) && Elements(files) == (set f | f in listing && !Discarded(f, now))
  {
    FilterKeepsNames(listing, now);
    FilterMembers(listing, Looked(now));
    SortKeepsNames(Filter(listing, Looked(now)));
  }

  /** The directory after a whole cleanup. */
  function AfterCleanup(listing: seq<File>, now: nat): set<File> {
    Sweep(Start(Cleared(Elements(listing), now)), Candidates(listing, now)).disk
  }

  /** Whatever the directory holds, however it is listed and whatever cannot be removed. */
  lemma CleanupLeavesTidy(listing: seq<File>, now: nat)
    requires DistinctNames(listing)
    ensures var files, p := Candidates(listing, now), Start(Cleared(Elements(listing), now));
            && Tidy(AfterCleanup(listing, now), Left(p, files))
            && Elements(Left(p, files)) == Removable(AfterCleanup(listing, now))
    ensures forall f :: f in AfterCleanup(listing, now) && Discarded(f, now) ==> !f.deletable
  {
    CandidatesAre(listing, now);
    SweepLeavesTidy(Cleared(Elements(listing), now), Candidates(listing, now));
    SweepShrinks(Start(Cleared(Elements(listing), now)), Candidates(listing, now));
  }

  lemma {:induction false} SweepSplit(p: Pass, a: seq<File>, b: seq<File>)
    ensures Sweep(p, a + b) == Sweep(Sweep(p, a), b)
    decreases a
  {
    if a == [] {
      assert a + b == b;
    } else {
      assert (a + b)[1..] == a[1..] + b;
      SweepSplit(Visit(p, a[0]), a[1..], b);
    }
  }

  /** An image is removed exactly when the files kept before it leave no room for it and it
      can be removed. */
  lemma ImageRemovedExactlyForLackOfRoom(disk: set<File>, files: seq<File>, i: nat)
    requires DistinctNames(files) && Elements(files) <= disk && i < |files| && !IsThumb(files[i])
    ensures var p := Start(disk);
            files[i] in Sweep(p, files).disk <==> HasRoom(Sweep(p, files[..i]), files[i]) || !files[i].deletable
  {
    var p, f := Start(disk), files[i];
    var before, after := files[..i], files[i + 1..];
    hide Sweep, IsThumb, HasRoom, DistinctNames;
    AroundOne(files, i);
    SweepSplit(p, before, [f] + after);
    ImageStays(p, before, f);
    ImageAtItsTurn(Sweep(p, before), f, after);
  }

  lemma AroundOne(files: seq<File>, i: nat)
    requires DistinctNames(files) && i < |files|
    ensures files == files[..i] + ([files[i]] + files[i + 1..])
    ensures forall g :: g in files[..i] || g in files[i + 1..] ==> g.name != files[i].name
  {
    forall g | g in files[..i] || g in files[i + 1..] ensures g.name != files[i].name {
      if g in files[..i] {
        var j :| 0 <= j < i && files[j] == g;
      } else {
        var j :| i < j < |files| && files[j] == g;
      }
    }
  }

  lemma ImageAtItsTurn(q: Pass, f: File, after: seq<File>)
    requires f in q.disk && !IsThumb(f) && forall g :: g in after ==> g.name != f.name
    ensures f in Sweep(q, [f] + after).disk <==> HasRoom(q, f) || !f.deletable
  {
    assert ([f] + after)[1..] == after;
    SweepShrinks(Visit(q, f), after);
    if HasRoom(q, f) || !f.deletable {
      ImageStays(Visit(q, f), after, f);
    }
  }

  // ------------------------------------------------------------- a second cleanup

  /** The second pass over the survivors is never worse off than the first was. */
  predicate NoWorse(second: Pass, first: Pass) {
    second.total <= first.total && second.kept <= first.kept && second.hashes == first.hashes
  }

  lemma {:induction false} SecondSweepKeepsAll(first: Pass, second: Pass, files: seq<File>)
    requires DistinctNames(files) && NoWorse(second, first) && (forall f :: f in files ==> f.deletable)
    requires forall f :: f in files && !IsThumb(f) ==> f in first.disk
    requires second.disk == Sweep(first, files).disk
    ensures Sweep(second, Left(first, files)).disk == second.disk
    decreases files
  {
    if files != [] {
      var f, rest := files[0], files[1..];
      var q := Visit(first, f);
      SweepShrinks(q, rest);
      ThumbNameIsThumb(Hash(f));
      forall g | g in rest && !IsThumb(g) ensures g in q.disk {
        assert g.name != f.name;
      }
      if f in second.disk {
        assert Left(first, files) == [f] + Left(q, rest);
        assert Left(first, files)[1..] == Left(q, rest);
        SecondSweepKeepsAll(q, Visit(second, f), rest);
      } else {
        assert Left(first, files) == Left(q, rest);
        if !IsThumb(f) && HasRoom(first, f) {
          ImageStays(q, rest, f);
        }
        SecondSweepKeepsAll(q, second, rest);
      }
    }
  }

  lemma {:induction false} FilterKeepsOrder(files: seq<File>, disk: set<File>)
    requires SortedBy(files, Newest)
    ensures SortedBy(Filter(files, In(disk)), Newest)
  {
    if files != [] {
      FilterKeepsOrder(files[1..], disk);
      FilterMembers(files[1..], In(disk));
      var r := Filter(files[1..], In(disk));
      forall f | f in r ensures Newest(files[0]) <= Newest(f) {
        assert f in files[1..];
      }
    }
  }

  /** If everything can be removed, cleaning up again, with the survivors listed in the order of
      the first pass and none of them an old temporary file by then, removes nothing. */
  lemma SecondCleanupRemovesNothing(listing: seq<File>, now: nat, later: nat)
    requires DistinctNames(listing) && forall f :: f in listing ==> f.deletable
    requires forall f :: f in AfterCleanup(listing, now) ==> !Discarded(f, later)
    ensures var once := AfterCleanup(listing, now);
            AfterCleanup(Filter(Candidates(listing, now), In(once)), later) == once
  {
    var files := Candidates(listing, now);
    var once := AfterCleanup(listing, now);
    CandidatesAre(listing, now);
    CandidatesAreAll(listing, now);
    SweepShrinks(Start(Elements(files)), files);
    SecondSweepKeepsAll(Start(Elements(files)), Start(once), files);
    hide Sweep, Candidates, AfterCleanup, Discarded, DistinctNames, Cleared;
    var again := Filter(files, In(once));
    FilterKeepsOrder(files, once);
    FilterMembers(files, In(once));
    assert Elements(again) == once;
    SecondPassIsThis(again, once, later);
  }

  /** If everything can be removed, the second pass sees all that is left. */
  lemma CandidatesAreAll(listing: seq<File>, now: nat)
    requires DistinctNames(listing) && forall f :: f in listing ==> f.deletable
    ensures var files := Candidates(listing, now);
            && Cleared(Elements(listing), now) == Elements(files)
            && AfterCleanup(listing, now) == Sweep(Start(Elements(files)), files).disk
            && SortedBy(files, Newest) && forall f :: f in files ==> f.deletable
  {
    CandidatesAre(listing, now);
    SortBySorts(Filter(listing, Looked(now)), Newest);
    hide Sweep;
    var files := Candidates(listing, now);
    assert Cleared(Elements(listing), now) == Elements(files);
    forall f | f in files ensures f.deletable {
      assert f in Elements(files);
    }
  }

  /** What a cleanup does with a sorted list it has to look at in full. */
  lemma SecondPassIsThis(again: seq<File>, once: set<File>, later: nat)
    requires SortedBy(again, Newest) && Elements(again) == once && forall f :: f in once ==> !Discarded(f, later)
    ensures AfterCleanup(again, later) == Sweep(Start(once), again).disk
  {
    forall f | f in again ensures Looked(later)(f) {
      assert f in Elements(again);
    }
    FilterAll(again, Looked(later));
    SortOfSorted(again, Newest);
    assert Cleared(once, later) == once;
  }
}
