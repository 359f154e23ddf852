/**
  What `VideoPlayer.loadVideo` reads from the frames directory: the files
  whose lower-cased extension is a supported format, in file-name order, each
  decoded and resized to the video grid, with the files that fail to decode
  left out. Decoding and resizing are host library calls; each directory
  entry carries their outcome.
*/
module FrameStore {
  import opened Wrappers
  import opened Text
  import opened Frames
  import opened Sequences

  /** A directory entry as `listFiles` reports it. `image` is the frame that
      decoding and resizing the file yields, or `None` when either throws. */
  datatype FileEntry = FileEntry(name: string, isFile: bool, image: Option<Frame>)

  /** The frames directory at the moment it is loaded; `listing` is `None`
      when listing it fails. */
  datatype Directory = Directory(found: bool, isDirectory: bool, listing: Option<seq<FileEntry>>)

  /** The default `files.supported_formats`. */
  const DefaultFormats: seq<string> := ["png", "jpg", "jpeg"]

  /** `File.extension`: what follows the last dot of the name, or the empty
      string when the name has no dot. */
  function Extension(name: string): (ext: string)
    ensures |ext| <= |name| && ext == name[|name| - |ext|..]
    ensures forall i :: 0 <= i < |ext| ==> ext[i] != '.'
    ensures '.' in name ==> |ext| < |name| && name[|name| - |ext| - 1] == '.'
    ensures '.' !in name ==> ext == ""
  {
    if |name| == 0 then ""
    else if name[|name| - 1] == '.' then ""
    else if '.' in name[..|name| - 1] then Extension(name[..|name| - 1]) + [name[|name| - 1]]
    else ""
  }

  /** A name ending in a dot and a dot-free suffix has that suffix as its
      extension. */
  lemma {:induction false} ExtensionAfterDot(stem: string, ext: string)
    requires forall i :: 0 <= i < |ext| ==> ext[i] != '.'
    ensures Extension(stem + "." + ext) == ext
  {
    var name := stem + "." + ext;
    if ext != [] {
      var init := ext[..|ext| - 1];
      ExtensionAfterDot(stem, init);
      assert name[..|name| - 1] == stem + "." + init;
      assert name[|stem|] == '.';
      assert '.' in name[..|name| - 1];
      assert ext == init + [ext[|ext| - 1]];
    }
  }

  /** The file filter passed to `listFiles`. */
  predicate Accepted(e: FileEntry, formats: seq<string>) {
    e.isFile && Lower(Extension(e.name)) in formats
  }

  /** The entries the filter keeps, in listing order: each accepted entry as
      often as it occurs, and nothing else. */
  function AcceptedFiles(entries: seq<FileEntry>, formats: seq<string>): (r: seq<FileEntry>)
    ensures forall e :: multiset(r)[e] == if Accepted(e, formats) then multiset(entries)[e] else 0
    ensures Subsequence(r, entries)
    ensures forall e :: e in r <==> e in entries && Accepted(e, formats)
    ensures (forall i :: 0 <= i < |entries| ==> Accepted(entries[i], formats)) ==> r == entries
  {
    if entries == [] then []
    else
      var rest := AcceptedFiles(entries[1..], formats);
      assert entries == [entries[0]] + entries[1..];
      assert multiset(entries) == multiset{entries[0]} + multiset(entries[1..]);
      assert (forall i :: 0 <= i < |entries| ==> Accepted(entries[i], formats)) ==>
               forall i :: 0 <= i < |entries[1..]| ==> Accepted(entries[1..][i], formats) by {
        if forall i :: 0 <= i < |entries| ==> Accepted(entries[i], formats) {
          forall i | 0 <= i < |entries[1..]| ensures Accepted(entries[1..][i], formats) {
            assert entries[1..][i] == entries[i + 1];
          }
        }
      }
      if Accepted(entries[0], formats) then
        assert ([entries[0]] + rest)[1..] == rest;
        [entries[0]] + rest
      else
        SubsequenceDrop(rest, entries);
        rest
  }

  predicate SortedByName(s: seq<FileEntry>) {
    forall i, j :: 0 <= i < j < |s| ==> LexLe(s[i].name, s[j].name)
  }

  predicate StrictlySortedByName(s: seq<FileEntry>) {
    forall i, j :: 0 <= i < j < |s| ==> LexLess(s[i].name, s[j].name)
  }

  /** Every entry of `s` has a name no smaller than `name`. */
  predicate NamesAtLeast(name: string, s: seq<FileEntry>) {
    forall i :: 0 <= i < |s| ==> LexLe(name, s[i].name)
  }

  lemma ConsSorted(x: FileEntry, s: seq<FileEntry>)
    requires SortedByName(s) && NamesAtLeast(x.name, s)
    ensures SortedByName([x] + s)
  {
    forall i, j | 0 <= i < j < |[x] + s|
      ensures LexLe(([x] + s)[i].name, ([x] + s)[j].name)
    {
      if i > 0 {
        assert ([x] + s)[i] == s[i - 1];
      }
      assert ([x] + s)[j] == s[j - 1];
    }
  }

  /** In a sorted sequence, a bound for the head bounds every entry. */
  lemma HeadBound(name: string, s: seq<FileEntry>)
    requires SortedByName(s) && s != [] && LexLe(name, s[0].name)
    ensures NamesAtLeast(name, s)
  {
    forall j | 0 < j < |s|
      ensures LexLe(name, s[j].name)
    {
      LexLeTransitive(name, s[0].name, s[j].name);
    }
  }

  /** The tail of a sorted sequence is sorted and bounded by its head. */
  lemma TailBound(s: seq<FileEntry>)
    requires SortedByName(s) && s != []
    ensures SortedByName(s[1..]) && NamesAtLeast(s[0].name, s[1..])
  {
    assert forall j :: 0 <= j < |s[1..]| ==> s[1..][j] == s[j + 1];
  }

  /** A bound survives adding one entry that also meets it, in any order. */
  lemma NamesAtLeastInsert(name: string, e: FileEntry, t: seq<FileEntry>, r: seq<FileEntry>)
    requires NamesAtLeast(name, t) && LexLe(name, e.name)
    requires multiset(r) == multiset(t) + multiset{e}
    ensures NamesAtLeast(name, r)
  {
    forall j | 0 <= j < |r|
      ensures LexLe(name, r[j].name)
    {
      assert r[j] in multiset(r);
      if r[j] != e {
        assert r[j] in multiset(t);
        var k :| 0 <= k < |t| && t[k] == r[j];
      }
    }
  }

  /** Inserts `e` before the first entry whose name is not smaller, so that
      entries with equal names keep their order. */
  function InsertByName(e: FileEntry, s: seq<FileEntry>): (r: seq<FileEntry>)
    requires SortedByName(s)
    ensures SortedByName(r)
    ensures multiset(r) == multiset(s) + multiset{e}
  {
    if s == [] then [e]
    else if LexLe(e.name, s[0].name) then
      HeadBound(e.name, s);
      ConsSorted(e, s);
      [e] + s
    else
      LexTotal(e.name, s[0].name);
      TailBound(s);
      var rest := InsertByName(e, s[1..]);
      NamesAtLeastInsert(s[0].name, e, s[1..], rest);
      ConsSorted(s[0], rest);
      assert s == [s[0]] + s[1..];
      [s[0]] + rest
  }

  /** `sortedBy { it.name }`: a stable sort by name. */
  function SortByName(s: seq<FileEntry>): (r: seq<FileEntry>)
    ensures SortedByName(r)
    ensures multiset(r) == multiset(s)
  {
    if s == [] then []
    else
      assert s == [s[0]] + s[1..];
      InsertByName(s[0], SortByName(s[1..]))
  }

  /** The entries named `n`, in the order they appear. */
  function Named(s: seq<FileEntry>, n: string): seq<FileEntry> {
    if s == [] then [] else (if s[0].name == n then [s[0]] else []) + Named(s[1..], n)
  }

  /** Inserting `e` puts it ahead of every entry sharing its name and leaves
      the order of each name's entries otherwise as it was. */
  lemma {:induction false} InsertByNameStable(e: FileEntry, s: seq<FileEntry>, n: string)
    requires SortedByName(s)
    ensures Named(InsertByName(e, s), n) == (if e.name == n then [e] else []) + Named(s, n)
  {
    var head := if e.name == n then [e] else [];
    if s == [] {
      assert Named([e], n) == head + Named([], n);
    } else if LexLe(e.name, s[0].name) {
      assert InsertByName(e, s) == [e] + s;
      assert ([e] + s)[1..] == s;
    } else {
      TailBound(s);
      var rest := InsertByName(e, s[1..]);
      InsertByNameStable(e, s[1..], n);
      var r := InsertByName(e, s);
      assert r == [s[0]] + rest;
      assert r[0] == s[0] && r[1..] == rest;
      if s[0].name == n {
        assert e.name != n;
        assert Named(r, n) == [s[0]] + Named(rest, n);
        assert Named(s, n) == [s[0]] + Named(s[1..], n);
      } else {
        assert Named(r, n) == Named(rest, n);
        assert Named(s, n) == Named(s[1..], n);
      }
    }
  }

  /** `sortedBy` is stable: the entries sharing a name keep their order. */
  lemma {:induction false} SortByNameStable(s: seq<FileEntry>, n: string)
    ensures Named(SortByName(s), n) == Named(s, n)
  {
    if s != [] {
      SortByNameStable(s[1..], n);
      InsertByNameStable(s[0], SortByName(s[1..]), n);
    }
  }

  /** How many of the first `n` files decode: the position the frame of file
      `n` takes in the animation when it decodes. */
  ghost function DecodableBefore(files: seq<FileEntry>, n: nat): nat
    requires n <= |files|
  {
    |set k | 0 <= k < n && files[k].image.Some?|
  }

  /** Counting in a prefix of the files counts the same. */
  lemma DecodablePrefix(files: seq<FileEntry>, m: nat, i: nat)
    requires i <= m <= |files|
    ensures DecodableBefore(files[..m], i) == DecodableBefore(files, i)
  {
    assert (set k | 0 <= k < i && files[..m][k].image.Some?) == (set k | 0 <= k < i && files[k].image.Some?);
  }

  /** One more file adds one to the count exactly when it decodes. */
  lemma DecodableStep(files: seq<FileEntry>, n: nat)
    requires n < |files|
    ensures DecodableBefore(files, n + 1) == DecodableBefore(files, n) + if files[n].image.Some? then 1 else 0
  {
    var before := set k | 0 <= k < n && files[k].image.Some?;
    var after := set k | 0 <= k < n + 1 && files[k].image.Some?;
    if files[n].image.Some? {
      assert after == before + {n};
    } else {
      assert after == before;
    }
  }

  /** The frames of the entries that decode, in entry order (the order is
      stated by `DecodedFramesInOrder`). */
  function DecodedFrames(files: seq<FileEntry>): (frames: seq<Frame>)
    ensures |frames| <= |files|
    ensures forall f :: f in frames ==> exists e :: e in files && e.image == Some(f)
    ensures (forall i :: 0 <= i < |files| ==> files[i].image.Some?) ==>
              |frames| == |files| && forall i :: 0 <= i < |files| ==> frames[i] == files[i].image.value
  {
    if files == [] then []
    else
      var init, last := files[..|files| - 1], files[|files| - 1];
      assert forall e :: e in init ==> e in files;
      assert (forall i :: 0 <= i < |files| ==> files[i].image.Some?) ==>
               forall i :: 0 <= i < |init| ==> init[i].image.Some?;
      DecodedFrames(init) + (match last.image case Some(f) => [f] case None => [])
  }

  /** Decoding keeps exactly the frames of the files that decode, in file
      order: the frame of the i-th file, when it decodes, comes right after
      those of the decodable files before it, and there are no other frames. */
  lemma {:induction false} DecodedFramesInOrder(files: seq<FileEntry>)
    ensures |DecodedFrames(files)| == DecodableBefore(files, |files|)
    ensures forall i :: 0 <= i < |files| && files[i].image.Some? ==>
              DecodableBefore(files, i) < |DecodedFrames(files)|
              && DecodedFrames(files)[DecodableBefore(files, i)] == files[i].image.value
  {
    if files == [] {
      assert DecodableBefore(files, 0) == 0;
    } else {
      var m := |files| - 1;
      var init := files[..m];
      var prior, frames := DecodedFrames(init), DecodedFrames(files);
      DecodedFramesInOrder(init);
      DecodablePrefix(files, m, m);
      DecodableStep(files, m);
      assert |prior| <= |frames| && frames[..|prior|] == prior;
      forall i | 0 <= i < |files| && files[i].image.Some?
        ensures DecodableBefore(files, i) < |frames| && frames[DecodableBefore(files, i)] == files[i].image.value
      {
        var d := DecodableBefore(files, i);
        if i < m {
          DecodablePrefix(files, m, i);
          assert init[i] == files[i];
          assert d < |prior| && prior[d] == files[i].image.value;
          assert frames[d] == frames[..|prior|][d];
        } else {
          assert i == m && d == |prior|;
          assert frames == prior + [files[m].image.value];
        }
      }
    }
  }

  /** Decoding one more file appends its frame, if it has one. */
  lemma DecodedFramesSnoc(files: seq<FileEntry>, i: nat)
    requires i < |files|
    ensures files[i].image.Some? ==> DecodedFrames(files[..i + 1]) == DecodedFrames(files[..i]) + [files[i].image.value]
    ensures files[i].image.None? ==> DecodedFrames(files[..i + 1]) == DecodedFrames(files[..i])
  {
    assert files[..i + 1][..i] == files[..i];
  }

  /** The accepted files of a listing, sorted by name: each accepted entry as
      often as the listing has it, and nothing else; a failed listing gives
      none. */
  function FrameFiles(listing: Option<seq<FileEntry>>, formats: seq<string>): (files: seq<FileEntry>)
    ensures SortedByName(files)
    ensures forall e :: multiset(files)[e] == if listing.Some? && Accepted(e, formats) then multiset(listing.value)[e] else 0
  {
    SortByName(AcceptedFiles(listing.GetOr([]), formats))
  }

  /** The animation a load of an existing directory produces: at most one
      frame per accepted file, and nothing when the listing fails. */
  function LoadedFrames(listing: Option<seq<FileEntry>>, formats: seq<string>): (frames: seq<Frame>)
    ensures |frames| <= |FrameFiles(listing, formats)|
    ensures listing.None? ==> frames == []
  {
    DecodedFrames(FrameFiles(listing, formats))
  }

  /** Every image the directory decodes to has the video grid's shape. */
  predicate DecodesToGrid(dir: Directory, width: nat, height: nat) {
    dir.listing.Some? ==>
      forall e :: e in dir.listing.value && e.image.Some? ==> WellShaped(e.image.value, width, height)
  }

  /** A load keeps only frames of accepted, decodable files, at most one per
      file, so every loaded frame has the grid's shape; a listing that fails
      loads nothing. */
  lemma LoadedFramesFromAcceptedFiles(dir: Directory, formats: seq<string>, width: nat, height: nat)
    requires DecodesToGrid(dir, width, height)
    ensures |LoadedFrames(dir.listing, formats)| <= |AcceptedFiles(dir.listing.GetOr([]), formats)|
    ensures forall f :: f in LoadedFrames(dir.listing, formats) ==> WellShaped(f, width, height)
    ensures dir.listing.None? ==> LoadedFrames(dir.listing, formats) == []
  {
    var accepted := AcceptedFiles(dir.listing.GetOr([]), formats);
    var files := FrameFiles(dir.listing, formats);
    assert |files| == |accepted| by {
      assert |multiset(files)| == |multiset(accepted)|;
    }
    forall f | f in LoadedFrames(dir.listing, formats)
      ensures WellShaped(f, width, height)
    {
      var e :| e in files && e.image == Some(f);
      assert e in multiset(files);
      assert e in accepted;
    }
  }

  /** Such sequences start with the same element: the first of `a` is no
      greater than any element, which only the first of `b` can be. */
  lemma SameFirst(a: seq<FileEntry>, b: seq<FileEntry>)
    requires SortedByName(a) && StrictlySortedByName(b)
    requires multiset(a) == multiset(b) && a != []
    ensures b != [] && a[0] == b[0]
  {
    assert a[0] in multiset(b);
    assert b != [] && b[0] in multiset(a);
    var k :| 0 <= k < |b| && b[k] == a[0];
    var m :| 0 <= m < |a| && a[m] == b[0];
    if k != 0 {
      assert LexLess(b[0].name, a[0].name);
      assert LexLe(a[0].name, a[m].name);
      LexLeNotGreater(a[0].name, b[0].name);
      assert false;
    }
  }

  lemma TailMultiset(a: seq<FileEntry>, b: seq<FileEntry>)
    requires multiset(a) == multiset(b) && a != [] && b != [] && a[0] == b[0]
    ensures multiset(a[1..]) == multiset(b[1..])
  {
    assert a == [a[0]] + a[1..] && b == [b[0]] + b[1..];
    assert multiset(a[1..]) == multiset(a) - multiset{a[0]};
    assert multiset(b[1..]) == multiset(b) - multiset{b[0]};
  }

  /** A sequence sorted by name and a strictly sorted one with the same
      elements are the same sequence. */
  lemma {:induction false} SortedUnique(a: seq<FileEntry>, b: seq<FileEntry>)
    requires SortedByName(a) && StrictlySortedByName(b)
    requires multiset(a) == multiset(b)
    ensures a == b
  {
    if a == [] {
      assert |multiset(b)| == 0;
    } else {
      SameFirst(a, b);
      TailMultiset(a, b);
      SortedUnique(a[1..], b[1..]);
      assert a == [a[0]] + a[1..] && b == [b[0]] + b[1..];
    }
  }

  /** Sorting any arrangement of a strictly name-ordered sequence gives that
      sequence back: file-name order alone fixes the load order. */
  lemma SortByNameRecovers(listing: seq<FileEntry>, ordered: seq<FileEntry>)
    requires StrictlySortedByName(ordered)
    requires multiset(listing) == multiset(ordered)
    ensures SortByName(listing) == ordered
  {
    SortedUnique(SortByName(listing), ordered);
  }
}
